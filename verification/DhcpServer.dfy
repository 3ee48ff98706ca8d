/** The DHCP server: one datagram in, at most one reply out, and its lease table. */
module DhcpServer {
  import opened Bytes
  import opened DhcpLease
  import opened DhcpOptions

  // Offsets in the message structure, and its size. The server looks up to five bytes past the
  // structure when an option starts at its very end, so the frame holds those bytes too.
  const YIADDR := 16
  const CHADDR := 28
  const OPTIONS := 240  // behind the four bytes of the magic cookie
  const MSG_SIZE := 548
  const FRAME_SIZE := MSG_SIZE + 5
  const MIN_SIZE := 243
  const REPLY_SIZE := 274

  const DISCOVER: byte := 1
  const OFFER: byte := 2
  const REQUEST: byte := 3
  const ACK: byte := 5

  const OPT_MASK: byte := 1
  const OPT_ROUTER: byte := 3
  const OPT_DNS: byte := 6
  const OPT_REQUESTED_IP: byte := 50
  const OPT_LEASE_TIME: byte := 51
  const OPT_MSG_TYPE: byte := 53
  const OPT_SERVER_ID: byte := 54
  const LEASE_S := 24 * 60 * 60

  datatype Config = Config(ip: Ip4, mask: Ip4)

  type Frame = s: seq<byte> | |s| == FRAME_SIZE witness seq(FRAME_SIZE, i => 0)

  // ---------- Specification ----------

  /** The frame after the datagram was copied over whatever the memory held before. */
  function Received(stale: Frame, datagram: seq<byte>): Frame {
    Overlaid(stale, datagram, MSG_SIZE)
  }

  function ClientMac(frame: Frame): Mac {
    frame[CHADDR..CHADDR + 6]
  }

  /** The slot whose address a REQUEST names, if it is one of the server's eight. */
  function RequestedSlot(cfg: Config, opt: seq<byte>): (slot: Option<nat>)
    requires |opt| == FRAME_SIZE - OPTIONS
    ensures slot.Some? ==> slot.value < MAX_IP
  {
    match FindOpt(opt, OPT_REQUESTED_IP)
    case None => None
    case Some(o) =>
      var slot := (opt[o + 5] - BASE_IP) % 0x100;
      if opt[o + 2..o + 5] == cfg.ip[..3] && slot < MAX_IP then Some(slot) else None
  }

  function TypeOf(opt: seq<byte>): Option<byte>
    requires |opt| == FRAME_SIZE - OPTIONS
  {
    match FindOpt(opt, OPT_MSG_TYPE)
    case None => None
    case Some(t) => Some(opt[t + 2])
  }

  function Decode(cfg: Config, mac: Mac, opt: seq<byte>): (m: Message)
    requires |opt| == FRAME_SIZE - OPTIONS
    ensures m.Request? ==> m.slot < MAX_IP
  {
    if TypeOf(opt) == Some(DISCOVER) then Discover(mac)
    else if TypeOf(opt) == Some(REQUEST) && RequestedSlot(cfg, opt).Some? then
      Request(mac, RequestedSlot(cfg, opt).value)
    else Ignored
  }

  function Understood(cfg: Config, stale: Frame, datagram: seq<byte>): (m: Message)
    ensures m.Request? ==> m.slot < MAX_IP
  {
    var frame := Received(stale, datagram);
    if |datagram| < MIN_SIZE then Ignored else Decode(cfg, ClientMac(frame), frame[OPTIONS..])
  }

  function AddressOf(cfg: Config, slot: nat): (address: Ip4)
    requires slot < MAX_IP
    ensures address == [cfg.ip[0], cfg.ip[1], cfg.ip[2], 16 + slot]
  {
    cfg.ip[..3] + [BASE_IP + slot]
  }

  const LEASE_DATA: seq<byte> := [0, 1, 0x51, 0x80]  // LEASE_S, the most significant byte first

  function ReplyItems(cfg: Config, msgType: byte): seq<Item> {
    [Opt(OPT_MSG_TYPE, [msgType]), Opt(OPT_SERVER_ID, cfg.ip), Opt(OPT_MASK, cfg.mask), Opt(OPT_ROUTER, cfg.ip),
     Opt(OPT_DNS, cfg.ip), Opt(OPT_LEASE_TIME, LEASE_DATA)]
  }

  /** The request's own bytes, with the opcode and the client's address replaced. */
  function ReplyHeader(cfg: Config, frame: Frame, slot: nat): (h: seq<byte>)
    requires slot < MAX_IP
    ensures |h| == OPTIONS
    ensures h[0] == OFFER && h[1..YIADDR] == frame[1..YIADDR]
    ensures h[YIADDR..YIADDR + 4] == AddressOf(cfg, slot)
    ensures h[YIADDR + 4..] == frame[YIADDR + 4..OPTIONS]
  {
    [OFFER] + frame[1..YIADDR] + AddressOf(cfg, slot) + frame[YIADDR + 4..OPTIONS]
  }

  /** 274 bytes: the header, then options that the reference reader reads as exactly the six the
      server means to send. There is only one such byte string. */
  ghost predicate IsReply(cfg: Config, frame: Frame, msgType: byte, slot: nat, reply: seq<byte>)
    requires slot < MAX_IP
  {
    && |reply| == REPLY_SIZE
    && reply[..OPTIONS] == ReplyHeader(cfg, frame, slot)
    && ReadItems(reply, OPTIONS) == Some(ReplyItems(cfg, msgType))
  }

  ghost predicate Answers(cfg: Config, frame: Frame, outcome: Outcome, reply: Option<seq<byte>>)
    requires !outcome.Silent? ==> outcome.slot < MAX_IP
  {
    match outcome
    case Silent => reply == None
    case Offer(_, slot) => reply.Some? && IsReply(cfg, frame, OFFER, slot, reply.value)
    case Ack(_, slot) => reply.Some? && IsReply(cfg, frame, ACK, slot, reply.value)
  }

  // ---------- What a client reads in a reply ----------

  /** The value a client should find under each option code. */
  function OptionValue(cfg: Config, msgType: byte, code: byte): Option<seq<byte>> {
    if code == OPT_MSG_TYPE then Some([msgType])
    else if code == OPT_MASK then Some(cfg.mask)
    else if code == OPT_LEASE_TIME then Some(LEASE_DATA)
    else if code in {OPT_SERVER_ID, OPT_ROUTER, OPT_DNS} then Some(cfg.ip)
    else None
  }

  lemma ReplyItemsData(cfg: Config, msgType: byte, code: byte)
    ensures TotalSize(ReplyItems(cfg, msgType)) == REPLY_SIZE - OPTIONS - 1
    ensures FirstData(ReplyItems(cfg, msgType), code) == OptionValue(cfg, msgType, code)
  {
    var i0, i1, i2 := Opt(OPT_MSG_TYPE, [msgType]), Opt(OPT_SERVER_ID, cfg.ip), Opt(OPT_MASK, cfg.mask);
    var i3, i4, i5 := Opt(OPT_ROUTER, cfg.ip), Opt(OPT_DNS, cfg.ip), Opt(OPT_LEASE_TIME, LEASE_DATA);
    DataCons(i5, [], code);
    assert [i5] + [] == [i5];
    DataCons(i4, [i5], code);
    DataCons(i3, [i4, i5], code);
    DataCons(i2, [i3, i4, i5], code);
    DataCons(i1, [i2, i3, i4, i5], code);
    DataCons(i0, [i1, i2, i3, i4, i5], code);
  }

  /** The server's own option search, run on a reply (and whatever follows it in memory), finds the
      message type, server id, mask, router, DNS server and lease time that were written. */
  lemma ReplyOptionsFound(cfg: Config, msgType: byte, opt: seq<byte>, code: byte)
    requires |opt| > OPT_LIMIT && ReadItems(opt, 0) == Some(ReplyItems(cfg, msgType))
    requires OptionValue(cfg, msgType, code).Some?
    ensures FindOpt(opt, code).Some?
    ensures var k := FindOpt(opt, code).value;
            && k + 2 + opt[k + 1] <= |opt|
            && OptionValue(cfg, msgType, code) == Some(opt[k + 2..k + 2 + opt[k + 1]])
  {
    var items := ReplyItems(cfg, msgType);
    assert FindOpt(opt, code) == FirstOffset(items, code) by {
      ReplyItemsData(cfg, msgType, code);
      PadFreeIsPaired(items, code);
      FindOptIsFirst(opt, items, code);
    }
    assert FirstData(items, code) == OptionValue(cfg, msgType, code) by {
      ReplyItemsData(cfg, msgType, code);
    }
    ReadsWhatHolds(opt, 0, items);
    FirstOffsetData(opt, items, code, 0);
  }

  // ---------- Writing a reply ----------

  /** The first `k` of the six options are in place. */
  ghost predicate Written(b: seq<byte>, cfg: Config, msgType: byte, k: nat) {
    && (k >= 1 ==> ItemAt(b, OPTIONS, Opt(OPT_MSG_TYPE, [msgType])))
    && (k >= 2 ==> ItemAt(b, OPTIONS + 3, Opt(OPT_SERVER_ID, cfg.ip)))
    && (k >= 3 ==> ItemAt(b, OPTIONS + 9, Opt(OPT_MASK, cfg.mask)))
    && (k >= 4 ==> ItemAt(b, OPTIONS + 15, Opt(OPT_ROUTER, cfg.ip)))
    && (k >= 5 ==> ItemAt(b, OPTIONS + 21, Opt(OPT_DNS, cfg.ip)))
    && (k >= 6 ==> ItemAt(b, OPTIONS + 27, Opt(OPT_LEASE_TIME, BigEndian32(LEASE_S))))
  }

  lemma WrittenKept(before: seq<byte>, after: seq<byte>, cfg: Config, msgType: byte, k: nat)
    requires 1 <= k <= 6 && Written(before, cfg, msgType, k)
    requires var end := OPTIONS + 6 * k - 3;
             end <= |before| && end <= |after| && before[..end] == after[..end]
    ensures Written(after, cfg, msgType, k) && before[..OPTIONS] == after[..OPTIONS]
  {
    var end := OPTIONS + 6 * k - 3;
    assert before[..end][..OPTIONS] == before[..OPTIONS] && after[..end][..OPTIONS] == after[..OPTIONS];
    ItemKept(before, after, end, OPTIONS, Opt(OPT_MSG_TYPE, [msgType]));
    if k >= 2 { ItemKept(before, after, end, OPTIONS + 3, Opt(OPT_SERVER_ID, cfg.ip)); }
    if k >= 3 { ItemKept(before, after, end, OPTIONS + 9, Opt(OPT_MASK, cfg.mask)); }
    if k >= 4 { ItemKept(before, after, end, OPTIONS + 15, Opt(OPT_ROUTER, cfg.ip)); }
    if k >= 5 { ItemKept(before, after, end, OPTIONS + 21, Opt(OPT_DNS, cfg.ip)); }
    if k >= 6 { ItemKept(before, after, end, OPTIONS + 27, Opt(OPT_LEASE_TIME, BigEndian32(LEASE_S))); }
  }

  lemma WrittenReads(reply: seq<byte>, cfg: Config, msgType: byte)
    requires |reply| == REPLY_SIZE && Written(reply, cfg, msgType, 6) && reply[OPTIONS + 33] == END
    ensures ReadItems(reply, OPTIONS) == Some(ReplyItems(cfg, msgType))
  {
    assert BigEndian32(LEASE_S) == LEASE_DATA;
    var i0, i1, i2 := Opt(OPT_MSG_TYPE, [msgType]), Opt(OPT_SERVER_ID, cfg.ip), Opt(OPT_MASK, cfg.mask);
    var i3, i4, i5 := Opt(OPT_ROUTER, cfg.ip), Opt(OPT_DNS, cfg.ip), Opt(OPT_LEASE_TIME, LEASE_DATA);
    HoldsCons(reply, OPTIONS + 27, i5, []);
    assert [i5] + [] == [i5];
    HoldsCons(reply, OPTIONS + 21, i4, [i5]);
    HoldsCons(reply, OPTIONS + 15, i3, [i4, i5]);
    HoldsCons(reply, OPTIONS + 9, i2, [i3, i4, i5]);
    HoldsCons(reply, OPTIONS + 3, i1, [i2, i3, i4, i5]);
    HoldsCons(reply, OPTIONS, i0, [i1, i2, i3, i4, i5]);
    ReadsWhatHolds(reply, OPTIONS, ReplyItems(cfg, msgType));
  }

  lemma HeaderWritten(cfg: Config, received: Frame, changed: Frame, final: Frame, slot: nat)
    requires slot < MAX_IP
    requires changed == received[0 := OFFER][..YIADDR] + cfg.ip + received[YIADDR + 4..]
    requires final == changed[YIADDR + 3 := BASE_IP + slot]
    ensures final[..OPTIONS] == ReplyHeader(cfg, received, slot)
  {
  }

  // ---------- The server ----------

  method PutAddress(frame: array<byte>, ip: Ip4)
    requires frame.Length == FRAME_SIZE
    modifies frame
    ensures frame[..] == old(frame[..YIADDR]) + ip + old(frame[YIADDR + 4..])
  {
    forall i | 0 <= i < 4 {
      frame[YIADDR + i] := ip[i];
    }
  }

  class Server {
    const cfg: Config
    const lease: array<Lease>

    ghost predicate Valid() {
      lease.Length == MAX_IP
    }

    ghost function Leases(): Table
      requires Valid()
      reads lease
    {
      lease[..]
    }

    constructor (ip: Ip4, mask: Ip4)
      ensures Valid() && fresh(lease)
      ensures cfg == Config(ip, mask) && Leases() == FreshTable()
    {
      cfg := Config(ip, mask);
      lease := new Lease[MAX_IP](i => Lease(NO_MAC, 0));
    }

    method ChooseSlot(mac: Mac, clock: seq<nat>) returns (yi: nat)
      requires Valid() && |clock| == MAX_IP
      modifies lease
      ensures yi == OfferedSlot(old(Leases()), mac, clock)
      ensures Leases() == AfterDiscover(old(Leases()), mac, clock)
    {
      ghost var table := Leases();
      ghost var own, free := FirstMatch(table, mac), FirstAvailable(table, clock);
      yi := MAX_IP;
      for i := 0 to MAX_IP
        invariant i <= own
        invariant yi == if free < i then free else MAX_IP
        invariant Leases() == if free < i then ClearMac(table, ReclaimedSlot(table, mac, clock)) else table
        invariant lease[i..] == table[i..]
      {
        assert lease[i] == lease[i..][0] == table[i..][0] == table[i];
        if lease[i].mac == mac {
          assert Matches(table, mac, i);
          yi := i;
          break;
        }
        assert !Matches(table, mac, i) && i < own;
        if yi == MAX_IP {
          if lease[i].mac == NO_MAC {
            assert Available(table, clock, i);
            yi := i;
          }
          if Expired(lease[i].expiry, Tick(clock[i])) {
            assert Available(table, clock, i);
            lease[i] := lease[i].(mac := NO_MAC);
            yi := i;
          }
        }
        assert lease[i + 1..] == table[i + 1..];
      }
    }

    method Grant(mac: Mac, slot: nat, now: nat) returns (granted: bool)
      requires Valid() && slot < MAX_IP
      modifies lease
      ensures granted == Grantable(old(Leases()), mac, slot)
      ensures Leases() == AfterRequest(old(Leases()), mac, slot, now)
    {
      if lease[slot].mac == mac {
      } else if lease[slot].mac == NO_MAC {
        lease[slot] := lease[slot].(mac := mac);
      } else {
        return false;
      }
      lease[slot] := lease[slot].(expiry := PackExpiry(Tick(now)));
      return true;
    }

    method FindRequestedSlot(frame: array<byte>) returns (slot: Option<nat>)
      requires frame.Length == FRAME_SIZE
      ensures slot == RequestedSlot(cfg, frame[OPTIONS..])
    {
      ghost var opt := frame[OPTIONS..];
      var o := OptFind(frame, OPTIONS, OPT_REQUESTED_IP);
      if o == None {
        return None;
      }
      var at := OPTIONS + o.value;
      assert frame[at + 2..at + 5] == opt[o.value + 2..o.value + 5] && frame[at + 5] == opt[o.value + 5];
      if frame[at + 2..at + 5] != cfg.ip[..3] {
        return None;
      }
      var yi := (frame[at + 5] - BASE_IP) % 0x100;
      return if yi >= MAX_IP then None else Some(yi);
    }

    method FindType(frame: array<byte>) returns (t: Option<byte>)
      requires frame.Length == FRAME_SIZE
      ensures t == TypeOf(frame[OPTIONS..])
    {
      ghost var opt := frame[OPTIONS..];
      var msgtype := OptFind(frame, OPTIONS, OPT_MSG_TYPE);
      if msgtype == None {
        return None;
      }
      t := Some(frame[OPTIONS + msgtype.value + 2]);
      assert opt[msgtype.value + 2] == t.value;
    }

    /** The switch over the message type. */
    method Dispatch(frame: array<byte>, clock: seq<nat>) returns (outcome: Outcome)
      requires Valid() && |clock| == MAX_IP && frame.Length == FRAME_SIZE
      modifies lease
      ensures frame[..] == old(frame[..])
      ensures (Leases(), outcome) ==
                React(old(Leases()), Decode(cfg, ClientMac(old(frame[..])), old(frame[OPTIONS..])), clock)
    {
      var mac := frame[CHADDR..CHADDR + 6];
      var msgtype := FindType(frame);
      if msgtype == Some(DISCOVER) {
        var yi := ChooseSlot(mac, clock);
        return if yi == MAX_IP then Silent else Offer(mac, yi);
      } else if msgtype == Some(REQUEST) {
        var yi := FindRequestedSlot(frame);
        if yi == None {
          return Silent;
        }
        var granted := Grant(mac, yi.value, clock[0]);
        return if granted then Ack(mac, yi.value) else Silent;
      }
      return Silent;
    }

    method WriteIdentity(frame: array<byte>, msgType: byte) returns (end: nat)
      requires frame.Length == FRAME_SIZE
      modifies frame
      ensures end == OPTIONS + 15 && Written(frame[..], cfg, msgType, 3)
      ensures frame[..OPTIONS] == old(frame[..OPTIONS])
    {
      end := OptWriteU8(frame, OPTIONS, OPT_MSG_TYPE, msgType);
      ghost var s1 := frame[..];
      end := OptWriteN(frame, end, OPT_SERVER_ID, cfg.ip);
      ghost var s2 := frame[..];
      WrittenKept(s1, s2, cfg, msgType, 1);
      end := OptWriteN(frame, end, OPT_MASK, cfg.mask);
      WrittenKept(s2, frame[..], cfg, msgType, 2);
    }

    method WriteServices(frame: array<byte>, opt: nat, ghost msgType: byte) returns (end: nat)
      requires frame.Length == FRAME_SIZE
      requires opt == OPTIONS + 15 && Written(frame[..], cfg, msgType, 3)
      modifies frame
      ensures end == OPTIONS + 33 && Written(frame[..], cfg, msgType, 6)
      ensures frame[..OPTIONS] == old(frame[..OPTIONS])
    {
      ghost var s3 := frame[..];
      end := OptWriteN(frame, opt, OPT_ROUTER, cfg.ip);
      ghost var s4 := frame[..];
      WrittenKept(s3, s4, cfg, msgType, 3);
      end := OptWriteN(frame, end, OPT_DNS, cfg.ip);
      ghost var s5 := frame[..];
      WrittenKept(s4, s5, cfg, msgType, 4);
      end := OptWriteU32(frame, end, OPT_LEASE_TIME, LEASE_S);
      WrittenKept(s5, frame[..], cfg, msgType, 5);
    }

    /** The message type, the five options common to all answers, and END. */
    method WriteOptions(frame: array<byte>, msgType: byte) returns (end: nat)
      requires frame.Length == FRAME_SIZE
      modifies frame
      ensures end == REPLY_SIZE
      ensures frame[..OPTIONS] == old(frame[..OPTIONS])
      ensures ReadItems(frame[..end], OPTIONS) == Some(ReplyItems(cfg, msgType))
    {
      end := WriteIdentity(frame, msgType);
      end := WriteServices(frame, end, msgType);
      ghost var written := frame[..];
      frame[end] := END;
      end := end + 1;
      WrittenKept(written, frame[..end], cfg, msgType, 6);
      WrittenReads(frame[..end], cfg, msgType);
    }

    method Compose(frame: array<byte>, outcome: Outcome, ghost received: Frame) returns (end: nat)
      requires frame.Length == FRAME_SIZE
      requires frame[..] == received[0 := OFFER][..YIADDR] + cfg.ip + received[YIADDR + 4..]
      requires !outcome.Silent? && outcome.slot < MAX_IP
      modifies frame
      ensures end == REPLY_SIZE && Answers(cfg, received, outcome, Some(frame[..end]))
    {
      ghost var changed := frame[..];
      frame[YIADDR + 3] := BASE_IP + outcome.slot;
      HeaderWritten(cfg, received, changed, frame[..], outcome.slot);
      end := WriteOptions(frame, if outcome.Offer? then OFFER else ACK);
      assert frame[..end][..OPTIONS] == frame[..OPTIONS];
    }

    /** `frame` is the message structure on the stack together with the five bytes behind it; what
        it holds before the call is arbitrary. */
    method Process(datagram: seq<byte>, frame: array<byte>, clock: seq<nat>) returns (reply: Option<seq<byte>>)
      requires Valid() && |clock| == MAX_IP && frame.Length == FRAME_SIZE
      modifies lease, frame
      ensures var msg := Understood(cfg, old(frame[..]), datagram);
              && Leases() == React(old(Leases()), msg, clock).0
              && Answers(cfg, Received(old(frame[..]), datagram), React(old(Leases()), msg, clock).1, reply)
    {
      if |datagram| < MIN_SIZE {
        return None;
      }
      CopyIn(datagram, frame, MSG_SIZE);
      ghost var received := frame[..];
      frame[0] := OFFER;
      PutAddress(frame, cfg.ip);
      ghost var changed := frame[..];
      assert ClientMac(changed) == ClientMac(received) && changed[OPTIONS..] == received[OPTIONS..];
      var outcome := Dispatch(frame, clock);
      if outcome == Silent {
        return None;
      }
      var end := Compose(frame, outcome, received);
      return Some(frame[..end]);
    }
  }
}
