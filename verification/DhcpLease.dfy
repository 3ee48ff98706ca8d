/** The lease table of the DHCP server: slot selection, granting, and the packed 16-bit expiry. */
module DhcpLease {
  import opened Bytes

  const MAX_IP := 8
  const BASE_IP := 16
  const LEASE_MS := 86_400_000
  const TICK_RANGE := 0x1_0000_0000

  type Mac = s: seq<byte> | |s| == 6 witness [0, 0, 0, 0, 0, 0]
  const NO_MAC: Mac := [0, 0, 0, 0, 0, 0]

  datatype Lease = Lease(mac: Mac, expiry: u16)

  type Table = s: seq<Lease> | |s| == MAX_IP
    witness seq(MAX_IP, i => Lease(NO_MAC, 0))

  /** All slots zeroed. */
  function FreshTable(): (t: Table)
    ensures forall i :: 0 <= i < MAX_IP ==> t[i] == Lease(NO_MAC, 0)
  {
    seq(MAX_IP, i => Lease(NO_MAC, 0))
  }

  // ---------- Time ----------

  /** The 32-bit millisecond counter at real time `t`. */
  function Tick(t: nat): u32 {
    t % TICK_RANGE
  }

  /** The 16 bits stored for a lease granted when the counter reads `tick`. */
  function PackExpiry(tick: u32): u16 {
    (tick + LEASE_MS) % TICK_RANGE / 0x1_0000
  }

  /** The sign test of the 32-bit difference between the unpacked expiry and the counter. */
  predicate Expired(expiry: u16, tick: u32) {
    (expiry * 0x1_0000 + 0xFFFF - tick) % TICK_RANGE >= 0x8000_0000
  }

  /** The last millisecond of the 65,536 ms block in which a lease granted at `g` runs out. */
  function Deadline(g: nat): nat {
    (g + LEASE_MS) / 0x1_0000 * 0x1_0000 + 0xFFFF
  }

  lemma DeadlineBounds(g: nat)
    ensures g + LEASE_MS <= Deadline(g) < g + LEASE_MS + 0x1_0000
  {
  }

  lemma ModUnique(x: int, q: int, r: nat)
    requires x == q * TICK_RANGE + r && r < TICK_RANGE
    ensures x % TICK_RANGE == r
  {
  }

  lemma DivBlock(q: int, r: nat)
    ensures (q * TICK_RANGE + r) / 0x1_0000 == q * 0x1_0000 + r / 0x1_0000
  {
  }

  lemma UnpackedExpiry(g: nat)
    ensures PackExpiry(Tick(g)) * 0x1_0000 + 0xFFFF == Deadline(g) % TICK_RANGE
  {
    var due := g + LEASE_MS;
    var q, r := due / TICK_RANGE, due % TICK_RANGE;
    assert PackExpiry(Tick(g)) == r / 0x1_0000 by {
      ModUnique(Tick(g) + LEASE_MS, q - g / TICK_RANGE, r);
    }
    assert Deadline(g) == q * TICK_RANGE + (r / 0x1_0000 * 0x1_0000 + 0xFFFF) by {
      assert due == q * TICK_RANGE + r;
      DivBlock(q, r);
    }
    ModUnique(Deadline(g), q, r / 0x1_0000 * 0x1_0000 + 0xFFFF);
  }

  /** Exactly when a lease is judged expired, for every grant time and every later or earlier time,
      whatever the number of counter wrap-arounds between them. */
  lemma ExpiredIff(g: nat, t: nat)
    ensures Expired(PackExpiry(Tick(g)), Tick(t)) <==> 1 <= (t - Deadline(g)) % TICK_RANGE <= 0x8000_0000
  {
    UnpackedExpiry(g);
    var d := Deadline(g);
    var e := PackExpiry(Tick(g)) * 0x1_0000 + 0xFFFF;
    var late := (t - d) % TICK_RANGE;
    var q := (t - d) / TICK_RANGE;
    var k := d / TICK_RANGE - t / TICK_RANGE;
    assert e - Tick(t) == d - t - k * TICK_RANGE;
    if late == 0 {
      ModUnique(e - Tick(t), -q - k, 0);
    } else {
      ModUnique(e - Tick(t), -q - k - 1, TICK_RANGE - late);
    }
  }

  /** No lease is judged expired during its 86,400,000 ms, and every lease is judged expired from
      65,536 ms after that until 2^31 ms after it. */
  lemma ExpirySound(g: nat, t: nat)
    ensures g <= t <= g + LEASE_MS ==> !Expired(PackExpiry(Tick(g)), Tick(t))
    ensures g + LEASE_MS + 0x1_0000 <= t <= g + LEASE_MS + 0x8000_0000 ==> Expired(PackExpiry(Tick(g)), Tick(t))
  {
    ExpiredIff(g, t);
    DeadlineBounds(g);
    var d := t - Deadline(g);
    if g <= t <= g + LEASE_MS && d < 0 {
      assert d % TICK_RANGE == d + TICK_RANGE;
    }
    if g + LEASE_MS + 0x1_0000 <= t <= g + LEASE_MS + 0x8000_0000 {
      assert d % TICK_RANGE == d;
    }
  }

  /** A lease is not judged expired before it has run longer than its full time. */
  lemma ExpiredImpliesLate(g: nat, t: nat)
    requires g <= t
    requires Expired(PackExpiry(Tick(g)), Tick(t))
    ensures t > g + LEASE_MS
  {
    ExpirySound(g, t);
  }

  /** A lease that ran out looks valid again 2^31 ms after its deadline. */
  lemma ExpiryForgotten(g: nat)
    ensures !Expired(PackExpiry(Tick(g)), Tick(Deadline(g) + 0x8000_0001))
  {
    ExpiredIff(g, Deadline(g) + 0x8000_0001);
  }

  // ---------- Slot selection ----------

  predicate Matches(table: Table, mac: Mac, i: nat)
    requires i < MAX_IP
  {
    table[i].mac == mac
  }

  /** `clock[i]` is the time the loop reads in iteration `i`. */
  predicate Available(table: Table, clock: seq<nat>, i: nat)
    requires |clock| == MAX_IP && i < MAX_IP
  {
    table[i].mac == NO_MAC || Expired(table[i].expiry, Tick(clock[i]))
  }

  /** The first slot from `i` on that belongs to `mac`, or MAX_IP. */
  function FirstMatch(table: Table, mac: Mac, i: nat := 0): (k: nat)
    requires i <= MAX_IP
    ensures i <= k <= MAX_IP
    ensures k < MAX_IP ==> Matches(table, mac, k)
    ensures forall j: nat :: i <= j < k ==> !Matches(table, mac, j)
    decreases MAX_IP - i
  {
    if i == MAX_IP || Matches(table, mac, i) then i else FirstMatch(table, mac, i + 1)
  }

  /** The first free or expired slot from `i` on, or MAX_IP. */
  function FirstAvailable(table: Table, clock: seq<nat>, i: nat := 0): (k: nat)
    requires |clock| == MAX_IP && i <= MAX_IP
    ensures i <= k <= MAX_IP
    ensures k < MAX_IP ==> Available(table, clock, k)
    ensures forall j: nat :: i <= j < k ==> !Available(table, clock, j)
    decreases MAX_IP - i
  {
    if i == MAX_IP || Available(table, clock, i) then i else FirstAvailable(table, clock, i + 1)
  }

  /** The slot a DISCOVER is offered: the client's own, else the first one available, else MAX_IP. */
  function OfferedSlot(table: Table, mac: Mac, clock: seq<nat>): nat
    requires |clock| == MAX_IP
  {
    var own := FirstMatch(table, mac);
    if own < MAX_IP then own else FirstAvailable(table, clock)
  }

  /** The slot a DISCOVER takes away from its owner, or MAX_IP: the first available one, when it
      comes before any slot of the client's own and its lease has run out. */
  function ReclaimedSlot(table: Table, mac: Mac, clock: seq<nat>): nat
    requires |clock| == MAX_IP
  {
    var a := FirstAvailable(table, clock);
    if a < FirstMatch(table, mac) && Expired(table[a].expiry, Tick(clock[a])) then a else MAX_IP
  }

  function ClearMac(table: Table, i: nat): Table
    requires i <= MAX_IP
  {
    if i == MAX_IP then table else table[i := table[i].(mac := NO_MAC)]
  }

  function AfterDiscover(table: Table, mac: Mac, clock: seq<nat>): Table
    requires |clock| == MAX_IP
  {
    ClearMac(table, ReclaimedSlot(table, mac, clock))
  }

  predicate Grantable(table: Table, mac: Mac, slot: nat)
    requires slot < MAX_IP
  {
    table[slot].mac == mac || table[slot].mac == NO_MAC
  }

  function AfterRequest(table: Table, mac: Mac, slot: nat, now: nat): Table
    requires slot < MAX_IP
  {
    if Grantable(table, mac, slot) then table[slot := Lease(mac, PackExpiry(Tick(now)))] else table
  }

  /** A DISCOVER changes nothing but the MAC of at most one slot, which becomes free; that slot was
      judged expired, and no slot before it was free, expired or the client's own. */
  lemma DiscoverFrame(table: Table, mac: Mac, clock: seq<nat>)
    requires |clock| == MAX_IP
    ensures var r := ReclaimedSlot(table, mac, clock);
            forall i: nat :: i < MAX_IP ==>
              && AfterDiscover(table, mac, clock)[i].expiry == table[i].expiry
              && AfterDiscover(table, mac, clock)[i].mac == (if i == r then NO_MAC else table[i].mac)
              && (i == r ==>
                    && Expired(table[i].expiry, Tick(clock[i]))
                    && table[i].mac != mac
                    && forall j: nat :: j < i ==> !Available(table, clock, j) && !Matches(table, mac, j))
  {
  }

  /** A DISCOVER goes unanswered exactly when every slot is held, unexpired, by some other client. */
  lemma DiscoverSilentIff(table: Table, mac: Mac, clock: seq<nat>)
    requires |clock| == MAX_IP
    ensures OfferedSlot(table, mac, clock) == MAX_IP <==>
            forall i: nat :: i < MAX_IP ==>
              && table[i].mac != mac
              && table[i].mac != NO_MAC
              && !Expired(table[i].expiry, Tick(clock[i]))
  {
    var own, a := FirstMatch(table, mac), FirstAvailable(table, clock);
    if own < MAX_IP {
      assert Matches(table, mac, own);
    } else if a < MAX_IP {
      assert Available(table, clock, a);
    } else {
      forall i: nat | i < MAX_IP
        ensures table[i].mac != mac && table[i].mac != NO_MAC && !Expired(table[i].expiry, Tick(clock[i]))
      {
        assert !Matches(table, mac, i) && !Available(table, clock, i);
      }
    }
  }

  /** After a DISCOVER, the slot it offers can be granted to the client that asked. */
  lemma OfferIsGrantable(table: Table, mac: Mac, clock: seq<nat>)
    requires |clock| == MAX_IP
    requires OfferedSlot(table, mac, clock) < MAX_IP
    ensures Grantable(AfterDiscover(table, mac, clock), mac, OfferedSlot(table, mac, clock))
  {
    var own, a := FirstMatch(table, mac), FirstAvailable(table, clock);
    if own < MAX_IP {
      assert Matches(table, mac, own);
    } else {
      assert Available(table, clock, a);
    }
  }

  /** The first slot with the client's MAC. */
  predicate IsFirstOwn(table: Table, mac: Mac, s: nat)
    requires s < 8
  {
    table[s].mac == mac && forall j: nat :: j < s ==> table[j].mac != mac
  }

  /** The first slot that is free (six zeros) or judged expired at its own clock reading. */
  predicate IsFirstOpen(table: Table, clock: seq<nat>, s: nat)
    requires |clock| == 8 && s < 8
  {
    && (table[s].mac == [0, 0, 0, 0, 0, 0] || Expired(table[s].expiry, Tick(clock[s])))
    && forall j: nat :: j < s ==> table[j].mac != [0, 0, 0, 0, 0, 0] && !Expired(table[j].expiry, Tick(clock[j]))
  }

  /** The slot a DISCOVER should get: the client's first; if it has none, the first that is open. */
  predicate Picked(table: Table, mac: Mac, clock: seq<nat>, s: nat)
    requires |clock| == 8
  {
    && s < 8
    && (|| IsFirstOwn(table, mac, s)
        || ((forall j: nat :: j < 8 ==> table[j].mac != mac) && IsFirstOpen(table, clock, s)))
  }

  lemma FirstMatchIff(table: Table, mac: Mac, s: nat)
    ensures FirstMatch(table, mac) == 8 <==> forall j: nat :: j < 8 ==> table[j].mac != mac
    ensures s < 8 ==> (FirstMatch(table, mac) == s <==> IsFirstOwn(table, mac, s))
  {
    var own := FirstMatch(table, mac);
    assert own < 8 ==> Matches(table, mac, own);
    assert forall j: nat :: j < own ==> !Matches(table, mac, j);
  }

  lemma FirstAvailableIff(table: Table, clock: seq<nat>, s: nat)
    requires |clock| == 8 && s < 8
    ensures FirstAvailable(table, clock) == s <==> IsFirstOpen(table, clock, s)
  {
    var a := FirstAvailable(table, clock);
    assert Available(table, clock, s) <==> table[s].mac == NO_MAC || Expired(table[s].expiry, Tick(clock[s]));
    assert a < 8 ==> Available(table, clock, a);
    assert forall j: nat :: j < a ==> !Available(table, clock, j);
  }

  // ---------- One message ----------

  /** What the server takes from a datagram. */
  datatype Message = Ignored | Discover(mac: Mac) | Request(mac: Mac, slot: nat)

  /** What the server answers. */
  datatype Outcome = Silent | Offer(mac: Mac, slot: nat) | Ack(mac: Mac, slot: nat)

  /** The table and the answer after one message; `clock[i]` is the time of the i-th clock reading
      and a REQUEST takes only the first. */
  function React(table: Table, msg: Message, clock: seq<nat>): (r: (Table, Outcome))
    requires |clock| == MAX_IP
    requires msg.Request? ==> msg.slot < MAX_IP
    ensures !r.1.Silent? ==> r.1.slot < MAX_IP
  {
    match msg
    case Ignored => (table, Silent)
    case Discover(mac) =>
      var slot := OfferedSlot(table, mac, clock);
      (AfterDiscover(table, mac, clock), if slot == MAX_IP then Silent else Offer(mac, slot))
    case Request(mac, slot) =>
      (AfterRequest(table, mac, slot, clock[0]), if Grantable(table, mac, slot) then Ack(mac, slot) else Silent)
  }

  /** A DISCOVER is offered exactly that slot. */
  lemma OfferIff(table: Table, mac: Mac, clock: seq<nat>, s: nat)
    requires |clock| == 8
    ensures React(table, Discover(mac), clock).1 == Offer(mac, s) <==> Picked(table, mac, clock, s)
  {
    FirstMatchIff(table, mac, s);
    if s < 8 {
      FirstAvailableIff(table, clock, s);
    }
  }

  /** A DISCOVER takes this slot from its owner: its lease has run out, it is the first open one, and the
      client has no slot up to it. */
  predicate Cleared(table: Table, mac: Mac, clock: seq<nat>, i: nat)
    requires |clock| == 8 && i < 8
  {
    && Expired(table[i].expiry, Tick(clock[i]))
    && IsFirstOpen(table, clock, i)
    && forall j: nat :: j <= i ==> table[j].mac != mac
  }

  lemma ReclaimedIff(table: Table, mac: Mac, clock: seq<nat>, i: nat)
    requires |clock| == 8 && i < 8
    ensures ReclaimedSlot(table, mac, clock) == i <==> Cleared(table, mac, clock, i)
  {
    var own := FirstMatch(table, mac);
    FirstAvailableIff(table, clock, i);
    assert own < 8 ==> Matches(table, mac, own);
    assert forall j: nat :: j < own ==> !Matches(table, mac, j);
  }

  /** The table after a DISCOVER, slot by slot: exactly the slot taken changes, and only its MAC. */
  lemma TableAfterDiscover(table: Table, mac: Mac, clock: seq<nat>, i: nat)
    requires |clock| == 8 && i < 8
    ensures React(table, Discover(mac), clock).0[i] ==
              if Cleared(table, mac, clock, i) then Lease([0, 0, 0, 0, 0, 0], table[i].expiry) else table[i]
  {
    ReclaimedIff(table, mac, clock, i);
  }

  /** The answer to a REQUEST and the table after it, slot by slot. */
  lemma AfterRequestIs(table: Table, mac: Mac, slot: nat, clock: seq<nat>, i: nat)
    requires |clock| == 8 && slot < 8 && i < 8
    ensures var granted := table[slot].mac == mac || table[slot].mac == [0, 0, 0, 0, 0, 0];
            && React(table, Request(mac, slot), clock).1 == (if granted then Ack(mac, slot) else Silent)
            && React(table, Request(mac, slot), clock).0[i] ==
                 if granted && i == slot then Lease(mac, PackExpiry(Tick(clock[0]))) else table[i]
  {
  }
}
