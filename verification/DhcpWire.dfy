/** The safety of whole runs, stated on the bytes that go over the wire. */
module DhcpWire {
  import opened Bytes
  import opened DhcpLease
  import opened DhcpOptions
  import opened DhcpServer
  import opened DhcpHistory

  /** A datagram, the memory it is copied over, and the time of each clock reading. */
  datatype Datagram = Datagram(bytes: seq<byte>, stale: Frame, clock: seq<nat>)

  /** The time of the first clock reading. */
  function HandledAt(d: Datagram): nat {
    if d.clock == [] then 0 else d.clock[0]
  }

  function Heard(cfg: Config, d: Datagram): Event {
    Event(Understood(cfg, d.stale, d.bytes), d.clock)
  }

  function Events(cfg: Config, run: seq<Datagram>): (events: seq<Event>)
    ensures |events| == |run|
  {
    seq(|run|, i requires 0 <= i < |run| => Heard(cfg, run[i]))
  }

  ghost predicate Answered(cfg: Config, run: seq<Datagram>, k: nat, reply: Option<seq<byte>>)
    requires Run(Events(cfg, run)) && k < |run|
  {
    Answers(cfg, Received(run[k].stale, run[k].bytes), OutcomeAt(Events(cfg, run), k), reply)
  }

  /** The first replies are right. */
  ghost predicate AnsweredSoFar(cfg: Config, run: seq<Datagram>, replies: seq<Option<seq<byte>>>)
    requires Run(Events(cfg, run))
  {
    && |replies| <= |run|
    && forall k {:trigger Answered(cfg, run, k, replies[k])} :: 0 <= k < |replies| ==> Answered(cfg, run, k, replies[k])
  }

  /** What a freshly initialised server sends when it is handed these datagrams one by one. */
  ghost predicate Exchanged(cfg: Config, run: seq<Datagram>, replies: seq<Option<seq<byte>>>) {
    |replies| == |run| && Run(Events(cfg, run)) && AnsweredSoFar(cfg, run, replies)
  }

  /** One datagram handed to the server, on a stack that holds the stale bytes. */
  method Hand(server: Server, d: Datagram) returns (reply: Option<seq<byte>>)
    requires server.Valid() && |d.clock| == MAX_IP
    modifies server.lease
    ensures var r := React(old(server.Leases()), Heard(server.cfg, d).msg, d.clock);
            server.Leases() == r.0 && Answers(server.cfg, Received(d.stale, d.bytes), r.1, reply)
  {
    var frame := new byte[FRAME_SIZE](i requires 0 <= i < FRAME_SIZE => d.stale[i]);
    assert frame[..] == d.stale;
    reply := server.Process(d.bytes, frame, d.clock);
  }

  lemma AnsweredNext(cfg: Config, run: seq<Datagram>, replies: seq<Option<seq<byte>>>, reply: Option<seq<byte>>)
    requires Run(Events(cfg, run)) && AnsweredSoFar(cfg, run, replies) && |replies| < |run|
    requires Answered(cfg, run, |replies|, reply)
    ensures AnsweredSoFar(cfg, run, replies + [reply])
  {
    var all := replies + [reply];
    forall k | 0 <= k < |all|
      ensures Answered(cfg, run, k, all[k])
    {
      if k < |replies| {
        assert Answered(cfg, run, k, replies[k]);
      }
    }
  }

  /** What the `k`-th datagram does to the table, and what it is answered with. */
  lemma HeardNext(cfg: Config, run: seq<Datagram>, k: nat)
    requires Run(Events(cfg, run)) && k < |run|
    ensures |run[k].clock| == MAX_IP
    ensures (TableAt(Events(cfg, run), k + 1), OutcomeAt(Events(cfg, run), k)) ==
              React(TableAt(Events(cfg, run), k), Heard(cfg, run[k]).msg, run[k].clock)
  {
    assert Events(cfg, run)[k] == Heard(cfg, run[k]) && Timed(Events(cfg, run)[k]);
  }

  /** The `k`-th datagram of a run handed to the server. */
  method HandNext(server: Server, run: seq<Datagram>, k: nat) returns (reply: Option<seq<byte>>)
    requires server.Valid() && Run(Events(server.cfg, run)) && k < |run|
    requires server.Leases() == TableAt(Events(server.cfg, run), k)
    modifies server.lease
    ensures server.Leases() == TableAt(Events(server.cfg, run), k + 1) && Answered(server.cfg, run, k, reply)
  {
    HeardNext(server.cfg, run, k);
    reply := Hand(server, run[k]);
  }

  /** The network stack handing one datagram after another to the server. */
  method Exchange(ip: Ip4, mask: Ip4, run: seq<Datagram>) returns (replies: seq<Option<seq<byte>>>)
    requires Run(Events(Config(ip, mask), run))
    ensures Exchanged(Config(ip, mask), run, replies)
  {
    ghost var events := Events(Config(ip, mask), run);
    var server := new Server(ip, mask);
    replies := [];
    for k := 0 to |run|
      invariant server.Valid() && fresh(server.lease) && server.cfg == Config(ip, mask)
      invariant |replies| == k && server.Leases() == TableAt(events, k)
      invariant AnsweredSoFar(server.cfg, run, replies)
    {
      var reply := HandNext(server, run, k);
      AnsweredNext(server.cfg, run, replies, reply);
      replies := replies + [reply];
    }
  }

  /** The bytes tell the client with this hardware address this about this IP address. */
  ghost predicate IsAnswerTo(reply: Option<seq<byte>>, msgType: byte, mac: Mac, address: Ip4) {
    && reply.Some?
    && |reply.value| == 274
    && ReadItems(reply.value, 240).Some?
    && FirstData(ReadItems(reply.value, 240).value, 53) == Some([msgType])
    && reply.value[16..20] == address
    && reply.value[28..34] == mac
  }

  ghost predicate IsOfferTo(reply: Option<seq<byte>>, mac: Mac, address: Ip4) {
    IsAnswerTo(reply, 2, mac, address)
  }

  ghost predicate IsAckTo(reply: Option<seq<byte>>, mac: Mac, address: Ip4) {
    IsAnswerTo(reply, 5, mac, address)
  }

  /** The lease time that the bytes tell the client, in seconds. */
  ghost function LeaseTime(reply: seq<byte>): Option<nat> {
    match ReadItems(reply, 240)
    case None => None
    case Some(items) =>
      match FirstData(items, 51)
      case None => None
      case Some(d) =>
        if |d| != 4 then None
        else Some(d[0] as int * 0x100_0000 + d[1] as int * 0x1_0000 + d[2] as int * 0x100 + d[3] as int)
  }

  lemma HeaderAt(cfg: Config, frame: Frame, slot: nat, i: nat)
    requires slot < MAX_IP && YIADDR <= i < OPTIONS
    ensures ReplyHeader(cfg, frame, slot)[i] == if i < YIADDR + 4 then AddressOf(cfg, slot)[i - YIADDR] else frame[i]
  {
    var h := ReplyHeader(cfg, frame, slot);
    if i < YIADDR + 4 {
      assert h[YIADDR..YIADDR + 4][i - YIADDR] == h[i];
    } else {
      assert h[YIADDR + 4..][i - (YIADDR + 4)] == h[i];
      assert frame[YIADDR + 4..OPTIONS][i - (YIADDR + 4)] == frame[i];
    }
  }

  lemma ReplyByte(cfg: Config, frame: Frame, msgType: byte, slot: nat, reply: seq<byte>, i: nat)
    requires slot < MAX_IP && IsReply(cfg, frame, msgType, slot, reply) && YIADDR <= i < OPTIONS
    ensures reply[i] == if i < YIADDR + 4 then AddressOf(cfg, slot)[i - YIADDR] else frame[i]
  {
    assert reply[..OPTIONS][i] == reply[i];
    HeaderAt(cfg, frame, slot, i);
  }

  /** A reply names the client's hardware address and the slot's IP address. */
  lemma ReplyMac(cfg: Config, frame: Frame, msgType: byte, slot: nat, reply: seq<byte>)
    requires slot < MAX_IP && IsReply(cfg, frame, msgType, slot, reply)
    ensures reply[CHADDR..CHADDR + 6] == ClientMac(frame)
    ensures reply[YIADDR..YIADDR + 4] == AddressOf(cfg, slot)
  {
    forall p | YIADDR <= p < OPTIONS
      ensures reply[p] == if p < YIADDR + 4 then AddressOf(cfg, slot)[p - YIADDR] else frame[p]
    {
      ReplyByte(cfg, frame, msgType, slot, reply, p);
    }
    SliceIff(reply, CHADDR, ClientMac(frame));
    SliceIff(reply, YIADDR, AddressOf(cfg, slot));
  }

  lemma AddressesDiffer(cfg: Config, i: nat, j: nat)
    requires i < MAX_IP && j < MAX_IP && AddressOf(cfg, i) == AddressOf(cfg, j)
    ensures i == j
  {
    assert AddressOf(cfg, i)[3] == AddressOf(cfg, j)[3];
  }

  /** An offer or acknowledgement on the wire is one in the lease table's history, for the same client
      and address. */
  lemma AnswerOnWire(cfg: Config, run: seq<Datagram>, replies: seq<Option<seq<byte>>>, k: nat,
                     msgType: byte, mac: Mac, address: Ip4)
    returns (slot: nat)
    requires Exchanged(cfg, run, replies) && k < |run| && IsAnswerTo(replies[k], msgType, mac, address)
    ensures slot < MAX_IP && address == AddressOf(cfg, slot)
    ensures OutcomeAt(Events(cfg, run), k) == if msgType == OFFER then Offer(mac, slot) else Ack(mac, slot)
  {
    var frame, outcome := Received(run[k].stale, run[k].bytes), OutcomeAt(Events(cfg, run), k);
    assert Answered(cfg, run, k, replies[k]);
    assert !outcome.Silent?;
    slot := outcome.slot;
    var sent := if outcome.Offer? then OFFER else ACK;
    ReplyItemsData(cfg, sent, OPT_MSG_TYPE);
    assert [sent][0] == [msgType][0];
    ReplyMac(cfg, frame, sent, slot, replies[k].value);
    assert Events(cfg, run)[k] == Heard(cfg, run[k]);
  }

  lemma ReplyTellsLease(cfg: Config, msgType: byte, reply: seq<byte>)
    requires ReadItems(reply, 240) == Some(ReplyItems(cfg, msgType))
    ensures LeaseTime(reply) == Some(86_400)
  {
    ReplyItemsData(cfg, msgType, 51);
    assert FirstData(ReplyItems(cfg, msgType), 51) == Some(LEASE_DATA);
  }

  /** Every reply tells a lease time of 24 hours. */
  lemma LeaseTimeOnWire(cfg: Config, run: seq<Datagram>, replies: seq<Option<seq<byte>>>, k: nat)
    requires Exchanged(cfg, run, replies) && k < |run| && replies[k].Some?
    ensures LeaseTime(replies[k].value) == Some(86_400)
  {
    assert Answered(cfg, run, k, replies[k]);
    var sent := if OutcomeAt(Events(cfg, run), k).Offer? then OFFER else ACK;
    ReplyTellsLease(cfg, sent, replies[k].value);
  }

  /** Over every run, on the bytes sent: after a reply acknowledges an address to a non-zero hardware
      address, no reply acknowledges that address to another one until more than the lease time which
      the first reply told has passed. */
  lemma AddressExclusiveOnWire(cfg: Config, run: seq<Datagram>, replies: seq<Option<seq<byte>>>, j: nat, k: nat,
                               mac: Mac, other: Mac, address: Ip4)
    requires Exchanged(cfg, run, replies) && j < k < |run|
    requires IsAckTo(replies[j], mac, address) && mac != [0, 0, 0, 0, 0, 0]
    requires IsAckTo(replies[k], other, address) && other != mac
    ensures LeaseTime(replies[j].value).Some?
    ensures HandledAt(run[k]) > HandledAt(run[j]) + 1000 * LeaseTime(replies[j].value).value
  {
    LeaseTimeOnWire(cfg, run, replies, j);
    var first := AnswerOnWire(cfg, run, replies, j, ACK, mac, address);
    var second := AnswerOnWire(cfg, run, replies, k, ACK, other, address);
    AddressesDiffer(cfg, first, second);
    var events := Events(cfg, run);
    assert events[j] == Heard(cfg, run[j]) && events[k] == Heard(cfg, run[k]) && Timed(events[j]) && Timed(events[k]);
    NoEarlyReassignment(events, j, k, mac, other, first);
  }

  /** Every byte of a reply: the request's own, but for the opcode 2 and the address offered or
      acknowledged, and then the six options. Nothing shorter than 243 bytes is answered. */
  lemma ReplyOnWire(cfg: Config, run: seq<Datagram>, replies: seq<Option<seq<byte>>>, k: nat)
    returns (slot: nat, msgType: byte)
    requires Exchanged(cfg, run, replies) && k < |run| && replies[k].Some?
    ensures |run[k].bytes| >= 243 && |replies[k].value| == 274 && slot < 8 && (msgType == 2 || msgType == 5)
    ensures replies[k].value[0] == 2
    ensures replies[k].value[16..20] == [cfg.ip[0], cfg.ip[1], cfg.ip[2], 16 + slot]
    ensures forall i :: 1 <= i < 16 || 20 <= i < 240 ==> replies[k].value[i] == run[k].bytes[i]
    ensures ReadItems(replies[k].value, 240) ==
              Some([Opt(53, [msgType]), Opt(54, cfg.ip), Opt(1, cfg.mask), Opt(3, cfg.ip), Opt(6, cfg.ip),
                    Opt(51, [0, 1, 0x51, 0x80])])
  {
    var frame, outcome := Received(run[k].stale, run[k].bytes), OutcomeAt(Events(cfg, run), k);
    assert Answered(cfg, run, k, replies[k]);
    assert !outcome.Silent?;
    assert Events(cfg, run)[k] == Heard(cfg, run[k]);
    slot := outcome.slot;
    msgType := if outcome.Offer? then OFFER else ACK;
    ReplyMac(cfg, frame, msgType, slot, replies[k].value);
    forall i | 1 <= i < 16 || 20 <= i < 240
      ensures replies[k].value[i] == run[k].bytes[i]
    {
      OwnByte(cfg, run[k].stale, run[k].bytes, msgType, slot, replies[k].value, i);
    }
    assert replies[k].value[..OPTIONS][0] == replies[k].value[0];
  }

  lemma OwnByte(cfg: Config, stale: Frame, bytes: seq<byte>, msgType: byte, slot: nat, reply: seq<byte>, i: nat)
    requires |bytes| >= MIN_SIZE && slot < MAX_IP && IsReply(cfg, Received(stale, bytes), msgType, slot, reply)
    requires 1 <= i < YIADDR || YIADDR + 4 <= i < OPTIONS
    ensures reply[i] == bytes[i]
  {
    var frame := Received(stale, bytes);
    assert frame[i] == bytes[i];
    if i < YIADDR {
      var h := ReplyHeader(cfg, frame, slot);
      assert reply[..OPTIONS][i] == reply[i];
      assert h[1..YIADDR][i - 1] == h[i] && frame[1..YIADDR][i - 1] == frame[i];
    } else {
      ReplyByte(cfg, frame, msgType, slot, reply, i);
    }
  }

  // ---------- Offers are honoured, on the wire ----------

  /** An acknowledgement in the lease table goes over the wire. */
  lemma AckIsSent(cfg: Config, run: seq<Datagram>, replies: seq<Option<seq<byte>>>, k: nat)
    requires Exchanged(cfg, run, replies) && k < |run| && OutcomeAt(Events(cfg, run), k).Ack?
    ensures var o := OutcomeAt(Events(cfg, run), k); IsAckTo(replies[k], o.mac, AddressOf(cfg, o.slot))
  {
    var frame, outcome := Received(run[k].stale, run[k].bytes), OutcomeAt(Events(cfg, run), k);
    assert Answered(cfg, run, k, replies[k]);
    ReplyItemsData(cfg, ACK, OPT_MSG_TYPE);
    ReplyMac(cfg, frame, ACK, outcome.slot, replies[k].value);
    assert Events(cfg, run)[k] == Heard(cfg, run[k]);
  }

  /** A message of this type as a client sends it: well-formed options, in which nothing keeps the
      server's search from the message type. */
  predicate IsFrom(bytes: seq<byte>, mac: Mac, msgType: byte) {
    && |bytes| >= 243
    && bytes[28..34] == mac
    && match ReadItems(Taken(bytes, 548), 240) {
      case None => false
      case Some(items) => Findable(items, 53) && FirstData(items, 53) == Some([msgType])
    }
  }

  /** A REQUEST for this address, in which nothing keeps the search from the address either. */
  predicate IsRequestFor(bytes: seq<byte>, mac: Mac, address: Ip4) {
    && IsFrom(bytes, mac, 3)
    && match ReadItems(Taken(bytes, 548), 240) {
      case None => false
      case Some(items) => Findable(items, 50) && FirstData(items, 50) == Some(address)
    }
  }

  /** Entries stay where they are when the bytes from `off` on are looked at on their own, whatever
      follows them. */
  lemma {:induction false} HoldsFrom(a: seq<byte>, b: seq<byte>, off: nat, i: nat, items: seq<Item>)
    requires |a| <= off + |b| && forall k :: off <= k < |a| ==> b[k - off] == a[k]
    requires Holds(a, off + i, items)
    ensures Holds(b, i, items)
    decreases |items|
  {
    if items != [] {
      var item := items[0];
      HoldsFrom(a, b, off, i + Size(item), items[1..]);
      if item.Opt? {
        assert b[i + 2..i + Size(item)] == a[off + i + 2..off + i + Size(item)];
      }
    }
  }

  /** The option's data, where the server's search finds it. */
  lemma FoundData(opt: seq<byte>, items: seq<Item>, code: byte, data: seq<byte>)
    requires |opt| > OPT_LIMIT && code != PAD && code != END && Holds(opt, 0, items)
    requires Findable(items, code) && FirstData(items, code) == Some(data)
    ensures FindOpt(opt, code).Some?
    ensures var o := FindOpt(opt, code).value + 2; o + |data| <= |opt| && opt[o..o + |data|] == data
  {
    FindOptFrom(opt, items, code, 0);
    FirstOffsetData(opt, items, code, 0);
  }

  lemma TypeDecoded(opt: seq<byte>, items: seq<Item>, msgType: byte)
    requires |opt| == FRAME_SIZE - OPTIONS && Holds(opt, 0, items)
    requires Findable(items, OPT_MSG_TYPE) && FirstData(items, OPT_MSG_TYPE) == Some([msgType])
    ensures TypeOf(opt) == Some(msgType)
  {
    var data := [msgType];
    FoundData(opt, items, OPT_MSG_TYPE, data);
    var t := FindOpt(opt, OPT_MSG_TYPE).value + 2;
    SliceIff(opt, t, data);
    assert opt[t] == data[0];
  }

  lemma AddressThere(cfg: Config, opt: seq<byte>, at: nat, slot: nat)
    requires slot < MAX_IP && at + 4 <= |opt| && opt[at..at + 4] == AddressOf(cfg, slot)
    ensures opt[at..at + 3] == cfg.ip[..3] && opt[at + 3] == BASE_IP + slot
  {
    var address := AddressOf(cfg, slot);
    SliceIff(opt, at, address);
    assert address[..3] == cfg.ip[..3];
    assert opt[at..at + 3] == address[..3];
  }

  lemma SlotDecoded(cfg: Config, opt: seq<byte>, items: seq<Item>, slot: nat)
    requires |opt| == FRAME_SIZE - OPTIONS && Holds(opt, 0, items) && slot < MAX_IP
    requires Findable(items, OPT_REQUESTED_IP) && FirstData(items, OPT_REQUESTED_IP) == Some(AddressOf(cfg, slot))
    ensures RequestedSlot(cfg, opt) == Some(slot)
  {
    var address := AddressOf(cfg, slot);
    FoundData(opt, items, OPT_REQUESTED_IP, address);
    AddressThere(cfg, opt, FindOpt(opt, OPT_REQUESTED_IP).value + 2, slot);
  }

  lemma OptionsTakenIn(stale: Frame, bytes: seq<byte>, items: seq<Item>)
    requires |bytes| >= MIN_SIZE && ReadItems(Taken(bytes, MSG_SIZE), OPTIONS) == Some(items)
    ensures Holds(Received(stale, bytes)[OPTIONS..], 0, items)
  {
    var taken := Taken(bytes, MSG_SIZE);
    ReadsWhatHolds(taken, OPTIONS, items);
    TakenInBytes(stale, bytes);
    HoldsFrom(taken, Received(stale, bytes)[OPTIONS..], OPTIONS, 0, items);
  }

  lemma TakenInBytes(stale: Frame, bytes: seq<byte>)
    requires |bytes| >= MIN_SIZE
    ensures ClientMac(Received(stale, bytes)) == bytes[CHADDR..CHADDR + 6]
    ensures forall k :: OPTIONS <= k < |Taken(bytes, MSG_SIZE)| ==>
              Received(stale, bytes)[OPTIONS..][k - OPTIONS] == Taken(bytes, MSG_SIZE)[k]
  {
    var frame := Received(stale, bytes);
    assert forall k :: 0 <= k < |Taken(bytes, MSG_SIZE)| ==> frame[k] == bytes[k];
    SliceIff(frame, CHADDR, bytes[CHADDR..CHADDR + 6]);
  }

  /** The server understands such a REQUEST, whatever its memory held before. */
  lemma RequestUnderstood(cfg: Config, stale: Frame, bytes: seq<byte>, mac: Mac, slot: nat)
    requires slot < MAX_IP && IsRequestFor(bytes, mac, AddressOf(cfg, slot))
    ensures Understood(cfg, stale, bytes) == Message.Request(mac, slot)
  {
    var items := ReadItems(Taken(bytes, MSG_SIZE), OPTIONS).value;
    OptionsTakenIn(stale, bytes, items);
    TakenInBytes(stale, bytes);
    TypeDecoded(Received(stale, bytes)[OPTIONS..], items, REQUEST);
    SlotDecoded(cfg, Received(stale, bytes)[OPTIONS..], items, slot);
  }

  /** The server understands such a DISCOVER, whatever its memory held before. */
  lemma DiscoverUnderstood(cfg: Config, stale: Frame, bytes: seq<byte>, mac: Mac)
    requires IsFrom(bytes, mac, DISCOVER)
    ensures Understood(cfg, stale, bytes) == Message.Discover(mac)
  {
    var items := ReadItems(Taken(bytes, MSG_SIZE), OPTIONS).value;
    OptionsTakenIn(stale, bytes, items);
    TakenInBytes(stale, bytes);
    TypeDecoded(Received(stale, bytes)[OPTIONS..], items, DISCOVER);
  }

  /** On the bytes sent: a client that requests the address it was offered gets exactly that address
      acknowledged, unless the address was acknowledged to another client in between. */
  lemma OfferHonouredOnWire(cfg: Config, run: seq<Datagram>, replies: seq<Option<seq<byte>>>, j: nat, k: nat,
                            mac: Mac, address: Ip4)
    requires Exchanged(cfg, run, replies) && j < k < |run|
    requires IsOfferTo(replies[j], mac, address) && IsRequestFor(run[k].bytes, mac, address)
    requires forall l, other: Mac :: j < l < k && other != mac ==> !IsAckTo(replies[l], other, address)
    ensures IsAckTo(replies[k], mac, address)
  {
    var events := Events(cfg, run);
    var slot := AnswerOnWire(cfg, run, replies, j, OFFER, mac, address);
    forall l | j < l < k
      ensures !TakenAt(events, l, mac, slot)
    {
      if OutcomeAt(events, l).Ack? {
        AckIsSent(cfg, run, replies, l);
      }
    }
    RequestUnderstood(cfg, run[k].stale, run[k].bytes, mac, slot);
    assert events[k] == Heard(cfg, run[k]);
    OfferHonoured(events, j, k, mac, slot);
    AckIsSent(cfg, run, replies, k);
  }

  // ---------- Discoveries are answered, on the wire ----------

  lemma OfferIsSent(cfg: Config, run: seq<Datagram>, replies: seq<Option<seq<byte>>>, k: nat)
    requires Exchanged(cfg, run, replies) && k < |run| && OutcomeAt(Events(cfg, run), k).Offer?
    ensures var o := OutcomeAt(Events(cfg, run), k); IsOfferTo(replies[k], o.mac, AddressOf(cfg, o.slot))
  {
    var frame, outcome := Received(run[k].stale, run[k].bytes), OutcomeAt(Events(cfg, run), k);
    assert Answered(cfg, run, k, replies[k]);
    ReplyItemsData(cfg, OFFER, OPT_MSG_TYPE);
    ReplyMac(cfg, frame, OFFER, outcome.slot, replies[k].value);
    assert Events(cfg, run)[k] == Heard(cfg, run[k]);
  }

  /** Reply `j` is the last of the first `k` to acknowledge this address to anyone. */
  ghost predicate LastAckTo(replies: seq<Option<seq<byte>>>, j: nat, k: nat, mac: Mac, address: Ip4) {
    && j < k <= |replies|
    && IsAckTo(replies[j], mac, address)
    && forall l: nat, other: Mac :: j < l < k ==> !IsAckTo(replies[l], other, address)
  }

  lemma AckOnWire(cfg: Config, run: seq<Datagram>, replies: seq<Option<seq<byte>>>, l: nat, mac: Mac, slot: nat)
    requires Exchanged(cfg, run, replies) && l < |run| && slot < MAX_IP
    ensures IsAckTo(replies[l], mac, AddressOf(cfg, slot)) ==> AcksSlot(Events(cfg, run), l, slot)
  {
    if IsAckTo(replies[l], mac, AddressOf(cfg, slot)) {
      var s := AnswerOnWire(cfg, run, replies, l, ACK, mac, AddressOf(cfg, slot));
      AddressesDiffer(cfg, s, slot);
    }
  }

  /** The last acknowledgement in the lease table's history is the last one on the wire. */
  lemma LastAckOnWire(cfg: Config, run: seq<Datagram>, replies: seq<Option<seq<byte>>>, j: nat, k: nat, slot: nat)
    requires Exchanged(cfg, run, replies) && k <= |run| && slot < MAX_IP
    requires LastAck(Events(cfg, run), j, k, slot)
    ensures LastAckTo(replies, j, k, OutcomeAt(Events(cfg, run), j).mac, AddressOf(cfg, slot))
  {
    AckIsSent(cfg, run, replies, j);
    forall l: nat, other: Mac | j < l < k
      ensures !IsAckTo(replies[l], other, AddressOf(cfg, slot))
    {
      AckOnWire(cfg, run, replies, l, other, slot);
    }
  }

  /** On the bytes sent: a client that discovers is offered an address if some address was last
      acknowledged, if at all, to the client itself or on a lease that ran out between 65,536 ms and
      2^31 ms ago. */
  lemma DiscoverAnsweredOnWire(cfg: Config, run: seq<Datagram>, replies: seq<Option<seq<byte>>>, k: nat,
                               mac: Mac, slot: nat)
    returns (offered: nat)
    requires Exchanged(cfg, run, replies) && k < |run| && slot < MAX_IP
    requires IsFrom(run[k].bytes, mac, 1)
    requires forall j: nat, other: Mac :: LastAckTo(replies, j, k, other, AddressOf(cfg, slot)) ==>
               other == mac || RanOut(HandledAt(run[j]), ReadAt(Heard(cfg, run[k]), slot))
    ensures offered < MAX_IP && IsOfferTo(replies[k], mac, AddressOf(cfg, offered))
  {
    var events := Events(cfg, run);
    assert events[k] == Heard(cfg, run[k]);
    DiscoverUnderstood(cfg, run[k].stale, run[k].bytes, mac);
    if OutcomeAt(events, k).Silent? {
      var j := SilenceMeansAllTaken(events, k, slot);
      assert events[j] == Heard(cfg, run[j]);
      LastAckOnWire(cfg, run, replies, j, k, slot);
      assert false;
    }
    offered := OutcomeAt(events, k).slot;
    OfferIsSent(cfg, run, replies, k);
  }

  /** On the bytes sent: the address offered is that of the client's own first slot or, if it has none, of
      the first slot that is free or whose lease has run out; there is no offer exactly if there is no
      such slot. */
  lemma OfferOnWireIs(cfg: Config, run: seq<Datagram>, replies: seq<Option<seq<byte>>>, k: nat, mac: Mac, s: nat)
    requires Exchanged(cfg, run, replies) && k < |run| && IsFrom(run[k].bytes, mac, 1) && s < 8
    ensures |run[k].clock| == 8
    ensures IsOfferTo(replies[k], mac, [cfg.ip[0], cfg.ip[1], cfg.ip[2], 16 + s]) <==>
              Picked(TableAt(Events(cfg, run), k), mac, run[k].clock, s)
  {
    var events := Events(cfg, run);
    DiscoverUnderstood(cfg, run[k].stale, run[k].bytes, mac);
    HeardNext(cfg, run, k);
    OfferIff(TableAt(events, k), mac, run[k].clock, s);
    if OutcomeAt(events, k) == Offer(mac, s) {
      OfferIsSent(cfg, run, replies, k);
    }
    OfferedAddress(cfg, run, replies, k, mac, s);
  }

  lemma OfferedAddress(cfg: Config, run: seq<Datagram>, replies: seq<Option<seq<byte>>>, k: nat, mac: Mac, s: nat)
    requires Exchanged(cfg, run, replies) && k < |run| && s < 8
    ensures IsOfferTo(replies[k], mac, AddressOf(cfg, s)) ==> OutcomeAt(Events(cfg, run), k) == Offer(mac, s)
  {
    if IsOfferTo(replies[k], mac, AddressOf(cfg, s)) {
      var slot := AnswerOnWire(cfg, run, replies, k, OFFER, mac, AddressOf(cfg, s));
      AddressesDiffer(cfg, slot, s);
    }
  }

  // ---------- Requests are answered, on the wire ----------

  /** On the bytes sent: a REQUEST for one of the eight addresses is acknowledged exactly if its slot is the
      client's or free. */
  lemma AckOnWireIff(cfg: Config, run: seq<Datagram>, replies: seq<Option<seq<byte>>>, k: nat, mac: Mac, s: nat)
    requires Exchanged(cfg, run, replies) && k < |run| && s < 8
    requires IsRequestFor(run[k].bytes, mac, [cfg.ip[0], cfg.ip[1], cfg.ip[2], 16 + s])
    ensures var holder := TableAt(Events(cfg, run), k)[s].mac;
            if holder == mac || holder == [0, 0, 0, 0, 0, 0]
            then IsAckTo(replies[k], mac, [cfg.ip[0], cfg.ip[1], cfg.ip[2], 16 + s]) else replies[k] == None
  {
    RequestUnderstood(cfg, run[k].stale, run[k].bytes, mac, s);
    HeardNext(cfg, run, k);
    AfterRequestIs(TableAt(Events(cfg, run), k), mac, s, run[k].clock, s);
    assert Answered(cfg, run, k, replies[k]);
    if OutcomeAt(Events(cfg, run), k).Ack? {
      AckIsSent(cfg, run, replies, k);
    }
  }

  lemma SlotAddress(cfg: Config, opt: seq<byte>, o: nat)
    requires |opt| == FRAME_SIZE - OPTIONS && FindOpt(opt, OPT_REQUESTED_IP) == Some(o)
    requires RequestedSlot(cfg, opt).Some?
    ensures opt[o + 2..o + 5] == cfg.ip[..3] && opt[o + 5] == 16 + RequestedSlot(cfg, opt).value
  {
  }

  lemma NetworkAndHost(cfg: Config, opt: seq<byte>, at: nat, address: Ip4, slot: nat)
    requires slot < MAX_IP && at + 4 <= |opt| && opt[at..at + 4] == address
    requires opt[at..at + 3] == cfg.ip[..3] && opt[at + 3] == 16 + slot
    ensures address == AddressOf(cfg, slot)
  {
    SliceIff(opt, at, address);
    SliceIff(opt, at, cfg.ip[..3]);
    assert opt[at] == address[0] && opt[at + 1] == address[1] && opt[at + 2] == address[2] && opt[at + 3] == address[3];
    assert cfg.ip[..3][0] == cfg.ip[0] && cfg.ip[..3][1] == cfg.ip[1] && cfg.ip[..3][2] == cfg.ip[2];
  }

  lemma OtherSlot(cfg: Config, opt: seq<byte>, items: seq<Item>, address: Ip4)
    requires |opt| == FRAME_SIZE - OPTIONS && Holds(opt, 0, items)
    requires Findable(items, 50) && FirstData(items, 50) == Some(address)
    ensures RequestedSlot(cfg, opt).Some? ==> address == AddressOf(cfg, RequestedSlot(cfg, opt).value)
  {
    FoundData(opt, items, 50, address);
    if RequestedSlot(cfg, opt).Some? {
      var o := FindOpt(opt, OPT_REQUESTED_IP).value;
      SlotAddress(cfg, opt, o);
      NetworkAndHost(cfg, opt, o + 2, address, RequestedSlot(cfg, opt).value);
    }
  }

  /** A REQUEST for any other address means nothing to the server, nor does a message of another type. */
  lemma OthersIgnored(cfg: Config, stale: Frame, bytes: seq<byte>, mac: Mac, msgType: byte, address: Ip4)
    requires IsFrom(bytes, mac, msgType)
    requires msgType == 3 ==>
               IsRequestFor(bytes, mac, address) && !(address[..3] == cfg.ip[..3] && 16 <= address[3] < 24)
    ensures msgType != 1 ==> Understood(cfg, stale, bytes) == Ignored
  {
    var items := ReadItems(Taken(bytes, MSG_SIZE), OPTIONS).value;
    OptionsTakenIn(stale, bytes, items);
    TypeDecoded(Received(stale, bytes)[OPTIONS..], items, msgType);
    if msgType == 3 {
      OtherSlot(cfg, Received(stale, bytes)[OPTIONS..], items, address);
    }
  }
}
