/** Whole histories of the lease table, over real time that never wraps. */
module DhcpHistory {
  import opened Bytes
  import opened DhcpLease

  /** A message and the time of each clock reading while it is handled. */
  datatype Event = Event(msg: Message, clock: seq<nat>)

  ghost predicate Timed(e: Event) {
    && (e.msg.Request? ==> e.msg.slot < MAX_IP)
    && |e.clock| == MAX_IP
    && forall i, j :: 0 <= i <= j < MAX_IP ==> e.clock[i] <= e.clock[j]
  }

  /** Time does not go back, within an event or from one event to the next. */
  ghost predicate Run(run: seq<Event>) {
    && (forall k :: 0 <= k < |run| ==> Timed(run[k]))
    && (forall k :: 0 < k < |run| ==> run[k - 1].clock[MAX_IP - 1] <= run[k].clock[0])
  }

  /** The table after the first `k` events of a run, starting from the initialised server. */
  ghost function TableAt(run: seq<Event>, k: nat): Table
    requires Run(run) && k <= |run|
  {
    if k == 0 then FreshTable() else React(TableAt(run, k - 1), run[k - 1].msg, run[k - 1].clock).0
  }

  /** What event `k` was answered with. */
  ghost function OutcomeAt(run: seq<Event>, k: nat): (o: Outcome)
    requires Run(run) && k < |run|
    ensures !o.Silent? ==> o.slot < MAX_IP
  {
    React(TableAt(run, k), run[k].msg, run[k].clock).1
  }

  /** What one event can do to one slot. */
  datatype Change = Kept | Reclaimed | Granted

  ghost predicate Changes(table: Table, msg: Message, clock: seq<nat>, slot: nat, next: Lease, change: Change)
    requires |clock| == MAX_IP && slot < MAX_IP
  {
    match change
    case Kept => next == table[slot]
    case Reclaimed =>
      && msg.Discover? && msg.mac != table[slot].mac
      && Expired(table[slot].expiry, Tick(clock[slot]))
      && next == Lease(NO_MAC, table[slot].expiry)
    case Granted =>
      && msg.Request? && msg.slot == slot && Grantable(table, msg.mac, slot)
      && next == Lease(msg.mac, PackExpiry(Tick(clock[0])))
  }

  function ChangeOf(table: Table, msg: Message, clock: seq<nat>, slot: nat): Change
    requires |clock| == MAX_IP && slot < MAX_IP
  {
    if msg.Discover? && ReclaimedSlot(table, msg.mac, clock) == slot then Reclaimed
    else if msg.Request? && msg.slot == slot && Grantable(table, msg.mac, slot) then Granted
    else Kept
  }

  lemma SlotStep(table: Table, msg: Message, clock: seq<nat>, slot: nat)
    requires |clock| == MAX_IP && slot < MAX_IP
    requires msg.Request? ==> msg.slot < MAX_IP
    ensures Changes(table, msg, clock, slot, React(table, msg, clock).0[slot], ChangeOf(table, msg, clock, slot))
  {
    if msg.Discover? {
      DiscoverFrame(table, msg.mac, clock);
    }
  }

  lemma {:induction false} LaterEvents(run: seq<Event>, j: nat, k: nat)
    requires Run(run) && j < k < |run|
    ensures run[j].clock[MAX_IP - 1] <= run[k].clock[0]
  {
    if j + 1 < k {
      LaterEvents(run, j, k - 1);
      assert Timed(run[k - 1]);
    }
  }

  // ---------- An address is not given away early ----------

  /** The slot is still held by `mac`, on a lease granted at `g`, not before `since` nor after event
      `k - 1`. */
  ghost predicate HeldSince(run: seq<Event>, k: nat, slot: nat, mac: Mac, since: nat, g: nat)
    requires Run(run) && 0 < k <= |run| && slot < MAX_IP
  {
    && since <= g <= run[k - 1].clock[MAX_IP - 1]
    && TableAt(run, k)[slot] == Lease(mac, PackExpiry(Tick(g)))
  }

  lemma HeldStep(run: seq<Event>, p: nat, k: nat, mac: Mac, slot: nat, since: nat, g: nat)
    requires Run(run) && 0 < p < k == p + 1 <= |run| && slot < MAX_IP && mac != NO_MAC
    requires HeldSince(run, p, slot, mac, since, g)
    ensures (exists g' :: HeldSince(run, k, slot, mac, since, g')) || run[p].clock[MAX_IP - 1] > since + LEASE_MS
  {
    var table, msg, clock := TableAt(run, p), run[p].msg, run[p].clock;
    assert Timed(run[p]);
    SlotStep(table, msg, clock, slot);
    match ChangeOf(table, msg, clock, slot) {
      case Kept => assert HeldSince(run, k, slot, mac, since, g);
      case Reclaimed => ExpiredImpliesLate(g, clock[slot]);
      case Granted => assert HeldSince(run, k, slot, mac, since, clock[0]);
    }
  }

  lemma {:induction false} HeldUntilLate(run: seq<Event>, j: nat, k: nat, mac: Mac, slot: nat)
    requires Run(run) && j < k <= |run|
    requires OutcomeAt(run, j) == Ack(mac, slot) && mac != NO_MAC
    ensures || (exists g :: HeldSince(run, k, slot, mac, run[j].clock[0], g))
            || run[k - 1].clock[MAX_IP - 1] > run[j].clock[0] + LEASE_MS
  {
    var since, p := run[j].clock[0], k - 1;
    assert Timed(run[p]);
    if j == p {
      assert HeldSince(run, k, slot, mac, since, since);
    } else {
      HeldUntilLate(run, j, p, mac, slot);
      assert run[p - 1].clock[MAX_IP - 1] <= run[p].clock[0];
      if g :| HeldSince(run, p, slot, mac, since, g) {
        HeldStep(run, p, k, mac, slot, since, g);
      }
    }
  }

  /** Over every run: once an address is acknowledged to a client with a non-zero MAC, it is not
      acknowledged to any other client until more than 86,400,000 ms have passed. */
  lemma NoEarlyReassignment(run: seq<Event>, j: nat, k: nat, mac: Mac, other: Mac, slot: nat)
    requires Run(run) && j < k < |run|
    requires OutcomeAt(run, j) == Ack(mac, slot) && mac != NO_MAC
    requires OutcomeAt(run, k) == Ack(other, slot) && other != mac
    ensures run[k].clock[0] > run[j].clock[0] + LEASE_MS
  {
    HeldUntilLate(run, j, k, mac, slot);
    LaterEvents(run, k - 1, k);
  }

  /** A client with the all-zero MAC gets no such protection: right after an acknowledgement, some
      other client can take the slot exactly when the MAC it was granted to is all-zero. */
  lemma TakeoverIff(table: Table, mac: Mac, slot: nat, now: nat, other: Mac)
    requires slot < MAX_IP && Grantable(table, mac, slot) && other != mac
    ensures Grantable(AfterRequest(table, mac, slot, now), other, slot) <==> mac == NO_MAC
  {
  }

  /** The slot is acknowledged to `mac` at event `j` and to `other` at a later event `k`, not later than
      the first lease's full time. */
  ghost predicate EarlyTakeover(run: seq<Event>, j: nat, k: nat, mac: Mac, other: Mac, slot: nat) {
    && Run(run) && j < k < |run|
    && OutcomeAt(run, j) == Ack(mac, slot) && OutcomeAt(run, k) == Ack(other, slot)
    && Timed(run[j]) && Timed(run[k]) && run[k].clock[0] <= run[j].clock[0] + LEASE_MS
  }

  /** Two requests at the same time to a fresh server. */
  ghost function TwoRequests(first: Message, second: Message, t: nat): (run: seq<Event>)
    requires first.Request? && first.slot < MAX_IP && second.Request? && second.slot < MAX_IP
    ensures Run(run) && |run| == 2 && run[0].msg == first && run[1].msg == second
    ensures TableAt(run, 0) == FreshTable()
    ensures TableAt(run, 1) == AfterRequest(FreshTable(), first.mac, first.slot, t)
  {
    var clock := seq(MAX_IP, i => t);
    [Event(first, clock), Event(second, clock)]
  }

  /** Exactly when some run gives an acknowledged address to another client early: when the MAC it was
      acknowledged to is all-zero. */
  lemma EarlyTakeoverIff(mac: Mac, other: Mac, slot: nat)
    requires slot < MAX_IP && other != mac
    ensures (exists run, j, k :: EarlyTakeover(run, j, k, mac, other, slot)) <==> mac == NO_MAC
  {
    if mac == NO_MAC {
      var run := TwoRequests(Request(mac, slot), Request(other, slot), 0);
      assert OutcomeAt(run, 0) == Ack(mac, slot) && OutcomeAt(run, 1) == Ack(other, slot);
      assert EarlyTakeover(run, 0, 1, mac, other, slot);
    } else {
      forall run, j, k | EarlyTakeover(run, j, k, mac, other, slot)
        ensures false
      {
        NoEarlyReassignment(run, j, k, mac, other, slot);
      }
    }
  }

  // ---------- One slot for each client ----------

  /** The slot of the client's latest offer among the first `k` events. */
  ghost function LastOffer(run: seq<Event>, k: nat, mac: Mac): Option<nat>
    requires Run(run) && k <= |run|
  {
    if k == 0 then None
    else if OutcomeAt(run, k - 1).Offer? && OutcomeAt(run, k - 1).mac == mac then
      Some(OutcomeAt(run, k - 1).slot)
    else LastOffer(run, k - 1, mac)
  }

  /** Clients request only the address they were offered last. */
  ghost predicate Disciplined(run: seq<Event>)
    requires Run(run)
  {
    forall k :: 0 <= k < |run| && run[k].msg.Request? && run[k].msg.mac != NO_MAC ==>
      LastOffer(run, k, run[k].msg.mac) == Some(run[k].msg.slot)
  }

  ghost predicate OneSlotEach(table: Table) {
    forall i, j :: 0 <= i < j < MAX_IP && table[i].mac != NO_MAC ==> table[i].mac != table[j].mac
  }

  lemma {:induction false} HeldSlotWasOffered(run: seq<Event>, k: nat, i: nat)
    requires Run(run) && Disciplined(run) && k <= |run| && i < MAX_IP
    requires TableAt(run, k)[i].mac != NO_MAC
    ensures LastOffer(run, k, TableAt(run, k)[i].mac) == Some(i)
    decreases k, 0
  {
    var p, mac := k - 1, TableAt(run, k)[i].mac;
    var table, msg := TableAt(run, p), run[p].msg;
    SlotStep(table, msg, run[p].clock, i);
    if ChangeOf(table, msg, run[p].clock, i) == Kept {
      HeldSlotWasOffered(run, p, i);
      if msg.Discover? && msg.mac == mac {
        HeldSlotIsOwn(run, p, mac, i);
      }
    }
  }

  lemma {:induction false} HeldSlotIsOwn(run: seq<Event>, k: nat, mac: Mac, i: nat)
    requires Run(run) && Disciplined(run) && k <= |run| && i < MAX_IP && mac != NO_MAC
    requires TableAt(run, k)[i].mac == mac
    ensures FirstMatch(TableAt(run, k), mac) == i
    decreases k, 1
  {
    var own := FirstMatch(TableAt(run, k), mac);
    assert Matches(TableAt(run, k), mac, i);
    HeldSlotWasOffered(run, k, i);
    HeldSlotWasOffered(run, k, own);
  }

  /** In every run of disciplined clients, each non-zero MAC holds at most one slot, the slot of its
      latest offer, whatever slots other clients have reclaimed in between. */
  lemma OneSlotInDisciplinedRuns(run: seq<Event>, k: nat)
    requires Run(run) && Disciplined(run) && k <= |run|
    ensures OneSlotEach(TableAt(run, k))
    ensures forall i: nat :: i < MAX_IP && TableAt(run, k)[i].mac != NO_MAC ==>
              LastOffer(run, k, TableAt(run, k)[i].mac) == Some(i)
  {
    forall i: nat | i < MAX_IP && TableAt(run, k)[i].mac != NO_MAC
      ensures LastOffer(run, k, TableAt(run, k)[i].mac) == Some(i)
    {
      HeldSlotWasOffered(run, k, i);
    }
  }

  /** The guard the server lacks: a client that asks for a free slot holds none. */
  ghost predicate NoSecondClaim(run: seq<Event>, k: nat)
    requires Run(run) && k < |run|
  {
    SafeClaim(TableAt(run, k), run[k].msg)
  }

  ghost predicate SafeClaim(table: Table, msg: Message)
    requires msg.Request? ==> msg.slot < MAX_IP
  {
    msg.Request? && msg.mac != NO_MAC && table[msg.slot].mac == NO_MAC ==> FirstMatch(table, msg.mac) == MAX_IP
  }

  lemma MacsAfter(table: Table, msg: Message, clock: seq<nat>, i: nat)
    requires |clock| == MAX_IP && i < MAX_IP
    requires msg.Request? ==> msg.slot < MAX_IP
    ensures var mac := React(table, msg, clock).0[i].mac;
            || mac == table[i].mac
            || mac == NO_MAC
            || (msg.Request? && i == msg.slot && mac == msg.mac && table[i].mac == NO_MAC)
  {
    SlotStep(table, msg, clock, i);
  }

  lemma OneSlotStep(table: Table, msg: Message, clock: seq<nat>)
    requires |clock| == MAX_IP && OneSlotEach(table)
    requires msg.Request? ==> msg.slot < MAX_IP
    ensures OneSlotEach(React(table, msg, clock).0) <==> SafeClaim(table, msg)
  {
    var next := React(table, msg, clock).0;
    if SafeClaim(table, msg) {
      forall i, j | 0 <= i < j < MAX_IP && next[i].mac != NO_MAC
        ensures next[i].mac != next[j].mac
      {
        MacsAfter(table, msg, clock, i);
        MacsAfter(table, msg, clock, j);
        assert msg.Request? ==> !Matches(table, msg.mac, i) || !Matches(table, msg.mac, j);
      }
    } else {
      var i := FirstMatch(table, msg.mac);
      assert Matches(table, msg.mac, i);
      assert next[i].mac == next[msg.slot].mac && i != msg.slot;
    }
  }

  ghost predicate AlwaysOneSlot(run: seq<Event>, n: nat)
    requires Run(run) && n <= |run|
  {
    forall k: nat :: k <= n ==> OneSlotEach(TableAt(run, k))
  }

  lemma AlwaysOneSlotNext(run: seq<Event>, p: nat)
    requires Run(run) && p < |run|
    ensures AlwaysOneSlot(run, p + 1) <==> AlwaysOneSlot(run, p) && NoSecondClaim(run, p)
  {
    if AlwaysOneSlot(run, p) {
      assert OneSlotEach(TableAt(run, p));
      OneSlotStep(TableAt(run, p), run[p].msg, run[p].clock);
      assert OneSlotEach(TableAt(run, p + 1)) <==> NoSecondClaim(run, p);
    }
  }

  /** Exactly when no client ever holds two slots in a run, disciplined or not. */
  lemma {:induction false} OneSlotIff(run: seq<Event>, n: nat)
    requires Run(run) && n <= |run|
    ensures AlwaysOneSlot(run, n) <==> forall k: nat :: k < n ==> NoSecondClaim(run, k)
  {
    if n == 0 {
      assert OneSlotEach(TableAt(run, 0));
    } else {
      OneSlotIff(run, n - 1);
      AlwaysOneSlotNext(run, n - 1);
    }
  }

  /** A client without an offer that requests two free addresses holds both. */
  lemma SecondClaimTakesTwoSlots(mac: Mac, t: nat)
    requires mac != NO_MAC
    ensures var run := TwoRequests(Request(mac, 0), Request(mac, 1), t);
            && TableAt(run, 2)[0].mac == TableAt(run, 2)[1].mac == mac
            && !OneSlotEach(TableAt(run, 2))
  {
  }

  // ---------- Offers are honoured ----------

  /** Event `l` acknowledges the slot's address to some client other than `mac`. */
  ghost predicate TakenAt(run: seq<Event>, l: nat, mac: Mac, slot: nat)
    requires Run(run) && l < |run|
  {
    OutcomeAt(run, l).Ack? && OutcomeAt(run, l).slot == slot && OutcomeAt(run, l).mac != mac
  }

  ghost predicate NotTaken(run: seq<Event>, j: nat, k: nat, mac: Mac, slot: nat)
    requires Run(run) && k <= |run|
  {
    forall l :: j < l < k ==> !TakenAt(run, l, mac, slot)
  }

  lemma OpenStep(table: Table, msg: Message, clock: seq<nat>, mac: Mac, slot: nat)
    requires |clock| == MAX_IP && slot < MAX_IP && Grantable(table, mac, slot)
    requires msg.Request? ==> msg.slot < MAX_IP
    requires React(table, msg, clock).1.Ack? && React(table, msg, clock).1.slot == slot ==> msg.mac == mac
    ensures Grantable(React(table, msg, clock).0, mac, slot)
  {
    SlotStep(table, msg, clock, slot);
  }

  lemma OfferStep(table: Table, msg: Message, clock: seq<nat>, mac: Mac, slot: nat)
    requires |clock| == MAX_IP && (msg.Request? ==> msg.slot < MAX_IP)
    requires React(table, msg, clock).1 == Offer(mac, slot)
    ensures Grantable(React(table, msg, clock).0, mac, slot)
  {
    OfferIsGrantable(table, mac, clock);
  }

  lemma OpenAfterOffer(run: seq<Event>, p: nat, mac: Mac, slot: nat)
    requires Run(run) && p < |run| && OutcomeAt(run, p) == Offer(mac, slot)
    ensures Grantable(TableAt(run, p + 1), mac, slot)
  {
    OfferStep(TableAt(run, p), run[p].msg, run[p].clock, mac, slot);
  }

  lemma OpenAfterOther(run: seq<Event>, p: nat, mac: Mac, slot: nat)
    requires Run(run) && p < |run| && slot < MAX_IP
    requires Grantable(TableAt(run, p), mac, slot) && !TakenAt(run, p, mac, slot)
    ensures Grantable(TableAt(run, p + 1), mac, slot)
  {
    OpenStep(TableAt(run, p), run[p].msg, run[p].clock, mac, slot);
  }

  lemma {:induction false} OfferedSlotStaysOpen(run: seq<Event>, j: nat, k: nat, mac: Mac, slot: nat)
    requires Run(run) && j < k <= |run|
    requires OutcomeAt(run, j) == Offer(mac, slot) && NotTaken(run, j, k, mac, slot)
    ensures Grantable(TableAt(run, k), mac, slot)
  {
    if k == j + 1 {
      OpenAfterOffer(run, j, mac, slot);
    } else {
      OfferedSlotStaysOpen(run, j, k - 1, mac, slot);
      OpenAfterOther(run, k - 1, mac, slot);
    }
  }

  /** A client that requests the address it was offered is acknowledged with exactly that address,
      however late, unless the address was meanwhile acknowledged to another client; no other slot
      changes. */
  lemma OfferHonoured(run: seq<Event>, j: nat, k: nat, mac: Mac, slot: nat)
    requires Run(run) && j < k < |run|
    requires OutcomeAt(run, j) == Offer(mac, slot) && NotTaken(run, j, k, mac, slot)
    requires run[k].msg == Request(mac, slot)
    ensures OutcomeAt(run, k) == Ack(mac, slot)
    ensures forall i :: 0 <= i < MAX_IP && i != slot ==> TableAt(run, k + 1)[i] == TableAt(run, k)[i]
  {
    OfferedSlotStaysOpen(run, j, k, mac, slot);
  }

  /** Addresses come back: while some slot's lease ran out between 65,536 ms and 2^31 ms ago, no
      DISCOVER goes unanswered. */
  lemma ExpiredLeaseIsOffered(run: seq<Event>, k: nat, slot: nat, holder: Mac, g: nat)
    requires Run(run) && k < |run| && run[k].msg.Discover? && slot < MAX_IP
    requires TableAt(run, k)[slot] == Lease(holder, PackExpiry(Tick(g)))
    requires g + LEASE_MS + 0x1_0000 <= run[k].clock[slot] <= g + LEASE_MS + 0x8000_0000
    ensures OutcomeAt(run, k).Offer?
  {
    ExpirySound(g, run[k].clock[slot]);
    DiscoverSilentIff(TableAt(run, k), run[k].msg.mac, run[k].clock);
  }

  /** Event `j` acknowledged the slot to this client and wrote this expiry. */
  ghost predicate AckedAt(run: seq<Event>, j: nat, mac: Mac, slot: nat, expiry: u16)
    requires Run(run) && j < |run|
  {
    OutcomeAt(run, j) == Ack(mac, slot) && Timed(run[j]) && expiry == PackExpiry(Tick(run[j].clock[0]))
  }

  /** Event `l` acknowledges the slot's address. */
  ghost predicate AcksSlot(run: seq<Event>, l: nat, slot: nat)
    requires Run(run) && l < |run|
  {
    OutcomeAt(run, l).Ack? && OutcomeAt(run, l).slot == slot
  }

  /** Event `j` is the last of the first `k` events to acknowledge the slot's address. */
  ghost predicate LastAck(run: seq<Event>, j: nat, k: nat, slot: nat)
    requires Run(run) && k <= |run|
  {
    j < k && AcksSlot(run, j, slot) && forall l: nat :: j < l < k ==> !AcksSlot(run, l, slot)
  }

  /** What one event does to a slot that is held afterwards. */
  lemma HeldAfter(run: seq<Event>, p: nat, slot: nat)
    requires Run(run) && p < |run| && slot < MAX_IP && TableAt(run, p + 1)[slot].mac != NO_MAC
    ensures if AcksSlot(run, p, slot)
            then AckedAt(run, p, TableAt(run, p + 1)[slot].mac, slot, TableAt(run, p + 1)[slot].expiry)
            else TableAt(run, p + 1)[slot] == TableAt(run, p)[slot]
  {
    assert Timed(run[p]);
    SlotStep(TableAt(run, p), run[p].msg, run[p].clock, slot);
  }

  lemma LastAckKept(run: seq<Event>, j: nat, p: nat, slot: nat)
    requires Run(run) && p < |run| && LastAck(run, j, p, slot) && !AcksSlot(run, p, slot)
    ensures LastAck(run, j, p + 1, slot)
  {
  }

  /** Whoever holds a slot was acknowledged it by the last event to acknowledge that slot's address, and
      that event wrote the expiry the slot has. */
  lemma {:induction false} HolderWasAcked(run: seq<Event>, k: nat, slot: nat) returns (j: nat)
    requires Run(run) && k <= |run| && slot < MAX_IP && TableAt(run, k)[slot].mac != NO_MAC
    ensures LastAck(run, j, k, slot)
    ensures AckedAt(run, j, TableAt(run, k)[slot].mac, slot, TableAt(run, k)[slot].expiry)
  {
    var p: nat := k - 1;
    HeldAfter(run, p, slot);
    if AcksSlot(run, p, slot) {
      j := p;
    } else {
      j := HolderWasAcked(run, p, slot);
      LastAckKept(run, j, p, slot);
    }
  }

  /** The time of a clock reading. */
  function ReadAt(e: Event, i: nat): nat {
    if i < |e.clock| then e.clock[i] else 0
  }

  /** A lease granted at the time `g` ran out between 65,536 ms and 2^31 ms before `t`. */
  predicate RanOut(g: nat, t: nat) {
    g + LEASE_MS + 0x1_0000 <= t <= g + LEASE_MS + 0x8000_0000
  }

  /** A DISCOVER goes unanswered only if each address was last acknowledged to another client, on a
      lease that did not run out between 65,536 ms and 2^31 ms ago. */
  lemma SilenceMeansAllTaken(run: seq<Event>, k: nat, slot: nat) returns (j: nat)
    requires Run(run) && k < |run| && slot < MAX_IP
    requires run[k].msg.Discover? && OutcomeAt(run, k) == Silent
    ensures LastAck(run, j, k, slot) && OutcomeAt(run, j).mac != run[k].msg.mac
    ensures !RanOut(ReadAt(run[j], 0), ReadAt(run[k], slot))
  {
    var table := TableAt(run, k);
    DiscoverSilentIff(table, run[k].msg.mac, run[k].clock);
    j := HolderWasAcked(run, k, slot);
    assert Timed(run[j]) && Timed(run[k]);
    ExpirySound(run[j].clock[0], run[k].clock[slot]);
  }
}
