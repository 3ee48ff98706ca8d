/** Datagrams that end early: exactly when what the DHCP server understands depends on the bytes its
    memory held before. */
module DhcpStale {
  import opened Bytes
  import opened DhcpLease
  import opened DhcpOptions
  import opened DhcpServer

  const OPT_SIZE := FRAME_SIZE - OPTIONS

  /** What a search over the received option bytes alone shows: the option, its absence, or that the
      first byte behind them which can decide is at `at`. */
  datatype Known = Found(at: nat) | Absent | Open(at: nat)

  function Search(o: seq<byte>, cmd: byte, i: nat := 0): (k: Known)
    ensures k.Open? ==> |o| <= k.at < OPT_LIMIT
    ensures k.Found? ==> k.at < |o| && k.at < OPT_LIMIT
    decreases OPT_LIMIT - i
  {
    if i >= OPT_LIMIT then Absent
    else if i >= |o| then Open(i)
    else if o[i] == END then Absent
    else if o[i] == cmd then Found(i)
    else if i + 1 < |o| then Search(o, cmd, i + 2 + o[i + 1])
    else if i + 2 >= OPT_LIMIT then Absent
    else Open(i + 2)
  }

  /** The received bytes of the address at `k` agree with the server's network. */
  predicate MayMatch(cfg: Config, o: seq<byte>, k: nat) {
    forall j: nat :: j < 3 && k + 2 + j < |o| ==> o[k + 2 + j] == cfg.ip[j]
  }

  predicate RequestSettled(cfg: Config, o: seq<byte>) {
    match Search(o, OPT_REQUESTED_IP)
    case Absent => true
    case Open(_) => false
    case Found(k) => k + 5 < |o| || !MayMatch(cfg, o, k)
  }

  /** The received option bytes settle what the message means. */
  predicate Settled(cfg: Config, o: seq<byte>) {
    match Search(o, OPT_MSG_TYPE)
    case Absent => true
    case Open(_) => false
    case Found(t) => t + 2 < |o| && (o[t + 2] == REQUEST ==> RequestSettled(cfg, o))
  }

  /** `opt` starts with the received bytes. */
  predicate Extends(opt: seq<byte>, o: seq<byte>) {
    |o| <= |opt| == OPT_SIZE && forall j :: 0 <= j < |o| ==> opt[j] == o[j]
  }

  lemma {:induction false} SearchIsRight(o: seq<byte>, opt: seq<byte>, cmd: byte, i: nat)
    requires Extends(opt, o)
    ensures Search(o, cmd, i).Found? ==> FindOpt(opt, cmd, i) == Some(Search(o, cmd, i).at)
    ensures Search(o, cmd, i).Absent? ==> FindOpt(opt, cmd, i) == None
    decreases OPT_LIMIT - i
  {
    if i < OPT_LIMIT && i < |o| && o[i] != END && o[i] != cmd && i + 1 < |o| {
      SearchIsRight(o, opt, cmd, i + 2 + o[i + 1]);
    }
  }

  /** An open search finds nothing if only ENDs follow. */
  lemma {:induction false} OpenThenEnd(o: seq<byte>, opt: seq<byte>, cmd: byte, i: nat)
    requires Extends(opt, o) && Search(o, cmd, i).Open?
    requires forall j :: |o| <= j < OPT_SIZE ==> opt[j] == END
    ensures FindOpt(opt, cmd, i) == None
    decreases OPT_LIMIT - i
  {
    if i < |o| && i + 1 < |o| {
      OpenThenEnd(o, opt, cmd, i + 2 + o[i + 1]);
    }
  }

  /** It finds the option where it is open, if the option stands there and zeros in front of it. */
  lemma {:induction false} OpenThenFound(o: seq<byte>, opt: seq<byte>, cmd: byte, i: nat)
    requires Extends(opt, o) && Search(o, cmd, i).Open? && cmd != END
    requires opt[Search(o, cmd, i).at] == cmd && forall j :: |o| <= j < Search(o, cmd, i).at ==> opt[j] == 0
    ensures FindOpt(opt, cmd, i) == Some(Search(o, cmd, i).at)
    decreases OPT_LIMIT - i
  {
    if i < |o| && i + 1 < |o| {
      OpenThenFound(o, opt, cmd, i + 2 + o[i + 1]);
    }
  }

  // ---------- Settled messages ----------

  lemma NetworkIff(cfg: Config, opt: seq<byte>, k: nat)
    requires k + 5 <= |opt|
    ensures opt[k + 2..k + 5] == cfg.ip[..3] <==>
              opt[k + 2] == cfg.ip[0] && opt[k + 3] == cfg.ip[1] && opt[k + 4] == cfg.ip[2]
  {
    SliceIff(opt, k + 2, cfg.ip[..3]);
  }

  lemma OtherNetwork(cfg: Config, o: seq<byte>, opt: seq<byte>, k: nat)
    requires Extends(opt, o) && k < OPT_LIMIT && !MayMatch(cfg, o, k)
    requires FindOpt(opt, OPT_REQUESTED_IP) == Some(k)
    ensures RequestedSlot(cfg, opt) == None
  {
    var j: nat :| j < 3 && k + 2 + j < |o| && o[k + 2 + j] != cfg.ip[j];
    assert opt[k + 2 + j] != cfg.ip[j];
    NetworkIff(cfg, opt, k);
  }

  lemma SameAddress(cfg: Config, o: seq<byte>, a: seq<byte>, b: seq<byte>, k: nat)
    requires Extends(a, o) && Extends(b, o) && k < OPT_LIMIT && k + 5 < |o|
    requires FindOpt(a, OPT_REQUESTED_IP) == Some(k) && FindOpt(b, OPT_REQUESTED_IP) == Some(k)
    ensures RequestedSlot(cfg, a) == RequestedSlot(cfg, b)
  {
    assert a[k + 2..k + 5] == b[k + 2..k + 5] && a[k + 5] == b[k + 5];
  }

  lemma SlotSettled(cfg: Config, o: seq<byte>, a: seq<byte>, b: seq<byte>)
    requires Extends(a, o) && Extends(b, o) && RequestSettled(cfg, o)
    ensures RequestedSlot(cfg, a) == RequestedSlot(cfg, b)
  {
    SearchIsRight(o, a, OPT_REQUESTED_IP, 0);
    SearchIsRight(o, b, OPT_REQUESTED_IP, 0);
    if Search(o, OPT_REQUESTED_IP).Found? {
      var k := Search(o, OPT_REQUESTED_IP).at;
      if k + 5 < |o| {
        SameAddress(cfg, o, a, b, k);
      } else {
        OtherNetwork(cfg, o, a, k);
        OtherNetwork(cfg, o, b, k);
      }
    }
  }

  lemma DecodeSettled(cfg: Config, mac: Mac, o: seq<byte>, a: seq<byte>, b: seq<byte>)
    requires Extends(a, o) && Extends(b, o) && Settled(cfg, o)
    ensures Decode(cfg, mac, a) == Decode(cfg, mac, b)
  {
    SearchIsRight(o, a, OPT_MSG_TYPE, 0);
    SearchIsRight(o, b, OPT_MSG_TYPE, 0);
    if TypeOf(a) == Some(REQUEST) {
      SlotSettled(cfg, o, a, b);
    }
  }

  // ---------- Open messages ----------

  /** The received bytes, then what `rest` gives for each offset. */
  function Filled(o: seq<byte>, rest: nat -> byte): (opt: seq<byte>)
    requires |o| <= OPT_SIZE
    ensures Extends(opt, o) && forall j :: |o| <= j < OPT_SIZE ==> opt[j] == rest(j)
  {
    o + seq(OPT_SIZE - |o|, j requires 0 <= j => rest(|o| + j))
  }

  function Ends(): nat -> byte {
    (j: nat) => END
  }

  /** The option `cmd` at `at`, with these first four bytes of data, and zeros elsewhere. */
  function Option4(at: nat, cmd: byte, data: Ip4): nat -> byte {
    (j: nat) => if j == at then cmd else if at + 2 <= j < at + 6 then data[j - at - 2] else 0
  }

  lemma TypeIs(opt: seq<byte>, t: nat, msgType: byte)
    requires |opt| == OPT_SIZE && FindOpt(opt, OPT_MSG_TYPE) == Some(t) && opt[t + 2] == msgType
    ensures TypeOf(opt) == Some(msgType)
  {
  }

  /** With ENDs behind the received bytes an open search finds nothing. */
  lemma EndsFilled(o: seq<byte>, cmd: byte)
    requires |o| <= OPT_SIZE && Search(o, cmd).Open?
    ensures FindOpt(Filled(o, Ends()), cmd) == None
  {
    OpenThenEnd(o, Filled(o, Ends()), cmd, 0);
  }

  /** With the option where it is open, the search finds it and these data. */
  lemma OptionFilled(o: seq<byte>, cmd: byte, q: nat, data: Ip4)
    requires |o| <= OPT_SIZE && Search(o, cmd) == Open(q) && cmd != END
    ensures var opt := Filled(o, Option4(q, cmd, data));
            FindOpt(opt, cmd) == Some(q) && opt[q + 2] == data[0]
  {
    var rest := Option4(q, cmd, data);
    var opt := Filled(o, rest);
    assert opt[q] == rest(q) && opt[q + 2] == rest(q + 2);
    forall j | |o| <= j < q
      ensures opt[j] == 0
    {
      assert opt[j] == rest(j);
    }
    OpenThenFound(o, opt, cmd, 0);
  }

  lemma OtherTypeIgnored(cfg: Config, mac: Mac, opt: seq<byte>)
    requires |opt| == OPT_SIZE && (TypeOf(opt) == None || TypeOf(opt) == Some(END))
    ensures Decode(cfg, mac, opt) == Ignored
  {
  }

  lemma DiscoverDecoded(cfg: Config, mac: Mac, opt: seq<byte>)
    requires |opt| == OPT_SIZE && TypeOf(opt) == Some(DISCOVER)
    ensures Decode(cfg, mac, opt) == Discover(mac)
  {
  }

  lemma TypeOpen(cfg: Config, mac: Mac, o: seq<byte>) returns (a: nat -> byte, b: nat -> byte)
    requires |o| <= OPT_SIZE && Search(o, OPT_MSG_TYPE).Open?
    ensures Decode(cfg, mac, Filled(o, a)) == Ignored && Decode(cfg, mac, Filled(o, b)) == Discover(mac)
  {
    var q := Search(o, OPT_MSG_TYPE).at;
    a, b := Ends(), Option4(q, OPT_MSG_TYPE, [DISCOVER, 0, 0, 0]);
    EndsFilled(o, OPT_MSG_TYPE);
    OptionFilled(o, OPT_MSG_TYPE, q, [DISCOVER, 0, 0, 0]);
    TypeIs(Filled(o, b), q, DISCOVER);
    OtherTypeIgnored(cfg, mac, Filled(o, a));
    DiscoverDecoded(cfg, mac, Filled(o, b));
  }

  function Fill(c: byte): nat -> byte {
    (j: nat) => c
  }

  lemma TypeByteFilled(o: seq<byte>, t: nat, c: byte)
    requires |o| <= OPT_SIZE && Search(o, OPT_MSG_TYPE) == Found(t) && t + 2 >= |o|
    ensures TypeOf(Filled(o, Fill(c))) == Some(c)
  {
    var opt := Filled(o, Fill(c));
    SearchIsRight(o, opt, OPT_MSG_TYPE, 0);
    assert opt[t + 2] == Fill(c)(t + 2);
    TypeIs(opt, t, c);
  }

  lemma TypeByteOpen(cfg: Config, mac: Mac, o: seq<byte>) returns (a: nat -> byte, b: nat -> byte)
    requires |o| <= OPT_SIZE && Search(o, OPT_MSG_TYPE).Found? && Search(o, OPT_MSG_TYPE).at + 2 >= |o|
    ensures Decode(cfg, mac, Filled(o, a)) == Ignored && Decode(cfg, mac, Filled(o, b)) == Discover(mac)
  {
    a, b := Fill(END), Fill(DISCOVER);
    TypeByteFilled(o, Search(o, OPT_MSG_TYPE).at, END);
    TypeByteFilled(o, Search(o, OPT_MSG_TYPE).at, DISCOVER);
    OtherTypeIgnored(cfg, mac, Filled(o, a));
    DiscoverDecoded(cfg, mac, Filled(o, b));
  }

  /** The type is settled as REQUEST. */
  predicate IsRequest(o: seq<byte>) {
    match Search(o, OPT_MSG_TYPE)
    case Found(t) => t + 2 < |o| && o[t + 2] == REQUEST
    case _ => false
  }

  lemma RequestDecodes(cfg: Config, mac: Mac, o: seq<byte>, opt: seq<byte>)
    requires Extends(opt, o) && IsRequest(o)
    ensures Decode(cfg, mac, opt) ==
              match RequestedSlot(cfg, opt) case None => Ignored case Some(slot) => Message.Request(mac, slot)
  {
    SearchIsRight(o, opt, OPT_MSG_TYPE, 0);
  }

  /** The server's first address stands in the option at `k`. */
  predicate FirstAddressAt(cfg: Config, opt: seq<byte>, k: nat) {
    && k + 5 < |opt|
    && opt[k + 2] == cfg.ip[0] && opt[k + 3] == cfg.ip[1] && opt[k + 4] == cfg.ip[2]
    && opt[k + 5] == BASE_IP
  }

  lemma FirstAddress(cfg: Config, opt: seq<byte>, k: nat)
    requires |opt| == OPT_SIZE && FindOpt(opt, OPT_REQUESTED_IP) == Some(k) && FirstAddressAt(cfg, opt, k)
    ensures RequestedSlot(cfg, opt) == Some(0)
  {
    NetworkIff(cfg, opt, k);
  }

  lemma FirstAddressFilled(cfg: Config, o: seq<byte>, k: nat)
    requires |o| <= OPT_SIZE && k + 5 < OPT_SIZE && |o| <= k + 5 && MayMatch(cfg, o, k)
    ensures FirstAddressAt(cfg, Filled(o, Option4(k, OPT_REQUESTED_IP, AddressOf(cfg, 0))), k)
  {
    var rest := Option4(k, OPT_REQUESTED_IP, AddressOf(cfg, 0));
    var opt := Filled(o, rest);
    forall j: nat | j < 3
      ensures opt[k + 2 + j] == cfg.ip[j]
    {
      assert k + 2 + j >= |o| ==> opt[k + 2 + j] == rest(k + 2 + j) == AddressOf(cfg, 0)[j];
    }
    assert opt[k + 2 + 0] == cfg.ip[0] && opt[k + 2 + 1] == cfg.ip[1] && opt[k + 2 + 2] == cfg.ip[2];
    assert opt[k + 5] == rest(k + 5) == AddressOf(cfg, 0)[3];
  }

  lemma AddressOpen(cfg: Config, mac: Mac, o: seq<byte>) returns (a: nat -> byte, b: nat -> byte)
    requires |o| <= OPT_SIZE && IsRequest(o) && Search(o, OPT_REQUESTED_IP).Open?
    ensures Decode(cfg, mac, Filled(o, a)) == Ignored
    ensures Decode(cfg, mac, Filled(o, b)) == Message.Request(mac, 0)
  {
    var q := Search(o, OPT_REQUESTED_IP).at;
    a, b := Ends(), Option4(q, OPT_REQUESTED_IP, AddressOf(cfg, 0));
    EndsFilled(o, OPT_REQUESTED_IP);
    OptionFilled(o, OPT_REQUESTED_IP, q, AddressOf(cfg, 0));
    FirstAddressFilled(cfg, o, q);
    FirstAddress(cfg, Filled(o, b), q);
    RequestDecodes(cfg, mac, o, Filled(o, a));
    RequestDecodes(cfg, mac, o, Filled(o, b));
  }

  lemma NoSuchAddress(cfg: Config, opt: seq<byte>, k: nat)
    requires |opt| == OPT_SIZE && FindOpt(opt, OPT_REQUESTED_IP) == Some(k) && opt[k + 5] == END
    ensures RequestedSlot(cfg, opt) == None
  {
  }

  lemma EndIsNoAddress(cfg: Config, mac: Mac, o: seq<byte>, k: nat)
    requires |o| <= OPT_SIZE && IsRequest(o) && Search(o, OPT_REQUESTED_IP) == Found(k) && k + 5 >= |o|
    ensures Decode(cfg, mac, Filled(o, Ends())) == Ignored
  {
    var opt := Filled(o, Ends());
    SearchIsRight(o, opt, OPT_REQUESTED_IP, 0);
    assert opt[k + 5] == Ends()(k + 5) == END;
    NoSuchAddress(cfg, opt, k);
    RequestDecodes(cfg, mac, o, opt);
  }

  lemma AddressCompleted(cfg: Config, mac: Mac, o: seq<byte>, k: nat)
    requires |o| <= OPT_SIZE && IsRequest(o) && Search(o, OPT_REQUESTED_IP) == Found(k) && k + 5 >= |o|
    requires MayMatch(cfg, o, k)
    ensures Decode(cfg, mac, Filled(o, Option4(k, OPT_REQUESTED_IP, AddressOf(cfg, 0)))) == Message.Request(mac, 0)
  {
    var opt := Filled(o, Option4(k, OPT_REQUESTED_IP, AddressOf(cfg, 0)));
    SearchIsRight(o, opt, OPT_REQUESTED_IP, 0);
    FirstAddressFilled(cfg, o, k);
    FirstAddress(cfg, opt, k);
    RequestDecodes(cfg, mac, o, opt);
  }

  lemma AddressBytesOpen(cfg: Config, mac: Mac, o: seq<byte>) returns (a: nat -> byte, b: nat -> byte)
    requires |o| <= OPT_SIZE && IsRequest(o) && Search(o, OPT_REQUESTED_IP).Found?
    requires var k := Search(o, OPT_REQUESTED_IP).at; k + 5 >= |o| && MayMatch(cfg, o, k)
    ensures Decode(cfg, mac, Filled(o, a)) == Ignored
    ensures Decode(cfg, mac, Filled(o, b)) == Message.Request(mac, 0)
  {
    var k := Search(o, OPT_REQUESTED_IP).at;
    a, b := Ends(), Option4(k, OPT_REQUESTED_IP, AddressOf(cfg, 0));
    EndIsNoAddress(cfg, mac, o, k);
    AddressCompleted(cfg, mac, o, k);
  }

  lemma DecodeOpen(cfg: Config, mac: Mac, o: seq<byte>) returns (a: nat -> byte, b: nat -> byte)
    requires |o| <= OPT_SIZE && !Settled(cfg, o)
    ensures Decode(cfg, mac, Filled(o, a)) != Decode(cfg, mac, Filled(o, b))
  {
    if Search(o, OPT_MSG_TYPE).Open? {
      a, b := TypeOpen(cfg, mac, o);
    } else if Search(o, OPT_MSG_TYPE).at + 2 >= |o| {
      a, b := TypeByteOpen(cfg, mac, o);
    } else if Search(o, OPT_REQUESTED_IP).Open? {
      a, b := AddressOpen(cfg, mac, o);
    } else {
      a, b := AddressBytesOpen(cfg, mac, o);
    }
  }

  // ---------- Datagrams ----------

  /** The option bytes that are received. */
  function OptionBytes(bytes: seq<byte>): (o: seq<byte>)
    requires |bytes| >= MIN_SIZE
    ensures |o| <= OPT_LIMIT
  {
    Taken(bytes, MSG_SIZE)[OPTIONS..]
  }

  lemma ReceivedExtends(stale: Frame, bytes: seq<byte>)
    requires |bytes| >= MIN_SIZE
    ensures Extends(Received(stale, bytes)[OPTIONS..], OptionBytes(bytes))
    ensures ClientMac(Received(stale, bytes)) == bytes[CHADDR..CHADDR + 6]
  {
    var frame := Received(stale, bytes);
    assert forall k :: 0 <= k < |Taken(bytes, MSG_SIZE)| ==> frame[k] == bytes[k];
    SliceIff(frame, CHADDR, bytes[CHADDR..CHADDR + 6]);
  }

  /** Memory that leaves these bytes behind the datagram's. */
  lemma StaleFor(bytes: seq<byte>, rest: nat -> byte) returns (stale: Frame)
    requires |bytes| >= MIN_SIZE
    ensures Received(stale, bytes)[OPTIONS..] == Filled(OptionBytes(bytes), rest)
  {
    stale := seq(FRAME_SIZE, j requires 0 <= j => if j < OPTIONS then 0 else rest(j - OPTIONS));
    var opt, filled := Received(stale, bytes)[OPTIONS..], Filled(OptionBytes(bytes), rest);
    ReceivedExtends(stale, bytes);
    forall j | |OptionBytes(bytes)| <= j < OPT_SIZE
      ensures opt[j] == filled[j]
    {
      assert opt[j] == Received(stale, bytes)[OPTIONS + j] == stale[OPTIONS + j];
    }
  }

  /** Exactly when a datagram means the same whatever the memory held before: when its own bytes settle
      its type and, if that is REQUEST, the address. */
  lemma UnderstoodIgnoresStaleBytesIff(cfg: Config, bytes: seq<byte>)
    requires |bytes| >= MIN_SIZE
    ensures (forall s1: Frame, s2: Frame :: Understood(cfg, s1, bytes) == Understood(cfg, s2, bytes))
            <==> Settled(cfg, OptionBytes(bytes))
  {
    var o, mac := OptionBytes(bytes), bytes[CHADDR..CHADDR + 6];
    if Settled(cfg, o) {
      forall s1: Frame, s2: Frame
        ensures Understood(cfg, s1, bytes) == Understood(cfg, s2, bytes)
      {
        ReceivedExtends(s1, bytes);
        ReceivedExtends(s2, bytes);
        DecodeSettled(cfg, mac, o, Received(s1, bytes)[OPTIONS..], Received(s2, bytes)[OPTIONS..]);
      }
    } else {
      var a, b := DecodeOpen(cfg, mac, o);
      var s1 := StaleFor(bytes, a);
      var s2 := StaleFor(bytes, b);
      ReceivedExtends(s1, bytes);
      ReceivedExtends(s2, bytes);
      assert Understood(cfg, s1, bytes) != Understood(cfg, s2, bytes);
    }
  }

  /** A REQUEST that ends behind its type: the memory decides which address it asks for, if any. */
  lemma CutRequestTakesStaleAddress(cfg: Config, bytes: seq<byte>) returns (s1: Frame, s2: Frame)
    requires |bytes| == MIN_SIZE && bytes[OPTIONS..] == [OPT_MSG_TYPE, 1, REQUEST]
    ensures Understood(cfg, s1, bytes) == Ignored
    ensures Understood(cfg, s2, bytes) == Message.Request(bytes[CHADDR..CHADDR + 6], 0)
  {
    var o, mac := OptionBytes(bytes), bytes[CHADDR..CHADDR + 6];
    assert o == [OPT_MSG_TYPE, 1, REQUEST];
    assert Search(o, OPT_MSG_TYPE) == Found(0) && Search(o, OPT_REQUESTED_IP) == Open(3);
    var a, b := AddressOpen(cfg, mac, o);
    s1 := StaleFor(bytes, a);
    s2 := StaleFor(bytes, b);
    ReceivedExtends(s1, bytes);
    ReceivedExtends(s2, bytes);
  }
}
