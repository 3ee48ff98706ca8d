/** DHCP options: the server's search over the raw option bytes, its in-place writers, and a
    reference reader for the format of section 2 of RFC 2132. */
module DhcpOptions {
  import opened Bytes

  const PAD: byte := 0
  const END: byte := 255
  const OPT_LIMIT := 308

  // ---------- The server's search ----------

  /** The offset, from `i` on, at which the server finds option `cmd`. Every entry, a PAD too, is
      skipped by its second byte plus two. */
  function FindOpt(opt: seq<byte>, cmd: byte, i: nat := 0): (r: Option<nat>)
    requires |opt| > OPT_LIMIT
    ensures r.Some? ==> i <= r.value < OPT_LIMIT && opt[r.value] == cmd != END
    decreases OPT_LIMIT - i
  {
    if i >= OPT_LIMIT || opt[i] == END then None
    else if opt[i] == cmd then Some(i)
    else FindOpt(opt, cmd, i + 2 + opt[i + 1])
  }

  method OptFind(frame: array<byte>, start: nat, cmd: byte) returns (r: Option<nat>)
    requires start + OPT_LIMIT < frame.Length
    ensures r == FindOpt(frame[start..], cmd)
  {
    ghost var opt := frame[start..];
    var i := 0;
    while i < OPT_LIMIT && frame[start + i] != END
      invariant FindOpt(opt, cmd) == FindOpt(opt, cmd, i)
      decreases OPT_LIMIT - i
    {
      assert frame[start + i] == opt[i] && frame[start + i + 1] == opt[i + 1];
      if frame[start + i] == cmd {
        return Some(i);
      }
      i := i + 2 + frame[start + i + 1];
    }
    assert i < OPT_LIMIT ==> frame[start + i] == opt[i];
    return None;
  }

  // ---------- The format ----------

  datatype Item = Pad | Opt(code: byte, data: seq<byte>)

  predicate ValidItem(item: Item) {
    item.Opt? ==> item.code != PAD && item.code != END && |item.data| < 0x100
  }

  /** The reference reader: one-byte PADs, length-prefixed options, and END, which must be there. */
  function ReadItems(opt: seq<byte>, i: nat): (r: Option<seq<Item>>)
    decreases |opt| - i
  {
    if i >= |opt| then None
    else if opt[i] == END then Some([])
    else if opt[i] == PAD then
      match ReadItems(opt, i + 1)
      case None => None
      case Some(rest) => Some([Pad] + rest)
    else if i + 1 >= |opt| || i + 2 + opt[i + 1] > |opt| then None
    else
      match ReadItems(opt, i + 2 + opt[i + 1])
      case None => None
      case Some(rest) => Some([Opt(opt[i], opt[i + 2..i + 2 + opt[i + 1]])] + rest)
  }

  function Size(item: Item): nat {
    if item.Pad? then 1 else 2 + |item.data|
  }

  function TotalSize(items: seq<Item>): nat {
    if items == [] then 0 else Size(items[0]) + TotalSize(items[1..])
  }

  /** `item` stands in `opt` at offset `i`. */
  predicate ItemAt(opt: seq<byte>, i: nat, item: Item) {
    && ValidItem(item)
    && i + Size(item) <= |opt|
    && match item {
      case Pad => opt[i] == PAD
      case Opt(code, data) => opt[i] == code && opt[i + 1] == |data| && opt[i + 2..i + 2 + |data|] == data
    }
  }

  /** Exactly the entries `items` and then END stand in `opt` from offset `i` on. */
  predicate Holds(opt: seq<byte>, i: nat, items: seq<Item>)
    decreases |items|
  {
    if items == [] then i < |opt| && opt[i] == END
    else ItemAt(opt, i, items[0]) && Holds(opt, i + Size(items[0]), items[1..])
  }

  /** The reader returns the entries that are there, and only those. */
  lemma {:induction false} ReadsWhatHolds(opt: seq<byte>, i: nat, items: seq<Item>)
    ensures ReadItems(opt, i) == Some(items) <==> Holds(opt, i, items)
    decreases |opt| - i
  {
    if i < |opt| && opt[i] != END {
      var r := ReadItems(opt, i);
      if items != [] && ItemAt(opt, i, items[0]) {
        var next := i + Size(items[0]);
        ReadsWhatHolds(opt, next, items[1..]);
        assert items == [items[0]] + items[1..];
        assert r.Some? ==> r.value[1..] == ReadItems(opt, next).value && r.value[0] == items[0];
      } else if r.Some? {
        assert ItemAt(opt, i, r.value[0]);
      }
    }
  }

  /** Where the first option with this code starts, counting from `base`. */
  function FirstOffset(items: seq<Item>, code: byte, base: nat := 0): Option<nat> {
    if items == [] then None
    else if items[0].Opt? && items[0].code == code then Some(base)
    else FirstOffset(items[1..], code, base + Size(items[0]))
  }

  /** PADs come only as adjacent pairs (in particular, there may be none). */
  predicate PadsPaired(items: seq<Item>) {
    || items == []
    || (items[0].Opt? && PadsPaired(items[1..]))
    || (items[0].Pad? && |items| >= 2 && items[1].Pad? && PadsPaired(items[2..]))
  }

  predicate PadFree(items: seq<Item>) {
    forall item | item in items :: item.Opt?
  }

  /** The PADs in front of the first option with this code (without one, all PADs) are paired. */
  predicate PairedBefore(items: seq<Item>, code: byte) {
    || items == []
    || (items[0].Opt? && (items[0].code == code || PairedBefore(items[1..], code)))
    || (items[0].Pad? && |items| >= 2 && items[1].Pad? && PairedBefore(items[2..], code))
  }

  /** The bytes in front of the first option with this code (without one, in front of END). */
  function Reach(items: seq<Item>, code: byte): nat {
    if items == [] || (items[0].Opt? && items[0].code == code) then 0 else Size(items[0]) + Reach(items[1..], code)
  }

  /** Nothing in the list keeps the search from the first option with this code, or from END. */
  predicate Findable(items: seq<Item>, code: byte) {
    PairedBefore(items, code) && Reach(items, code) < 308
  }

  /** Two adjacent PADs are skipped by the reader and by the search alike. */
  lemma PadPair(opt: seq<byte>, items: seq<Item>, code: byte, i: nat)
    requires |opt| > OPT_LIMIT && code != PAD && code != END && i < OPT_LIMIT
    requires |items| >= 2 && items[0].Pad? && items[1].Pad? && Holds(opt, i, items)
    ensures Holds(opt, i + 2, items[2..]) && Reach(items, code) == 2 + Reach(items[2..], code)
    ensures FindOpt(opt, code, i) == FindOpt(opt, code, i + 2)
    ensures FirstOffset(items, code, i) == FirstOffset(items[2..], code, i + 2)
  {
    var rest := items[1..];
    assert rest[0] == items[1] && rest[1..] == items[2..];
    assert Holds(opt, i + 1, rest) && Reach(items, code) == 1 + Reach(rest, code);
    assert FirstOffset(items, code, i) == FirstOffset(rest, code, i + 1);
  }

  lemma {:induction false} FindOptFrom(opt: seq<byte>, items: seq<Item>, cmd: byte, i: nat)
    requires |opt| > OPT_LIMIT && cmd != PAD && cmd != END
    requires Holds(opt, i, items)
    requires PairedBefore(items, cmd) && i + Reach(items, cmd) < OPT_LIMIT
    ensures FindOpt(opt, cmd, i) == FirstOffset(items, cmd, i)
    decreases |items|
  {
    if items != [] {
      var next := i + Size(items[0]);
      if items[0].Pad? {
        PadPair(opt, items, cmd, i);
        FindOptFrom(opt, items[2..], cmd, next + 1);
      } else if items[0].code != cmd {
        FindOptFrom(opt, items[1..], cmd, next);
      }
    }
  }

  /** On options that the reference reader accepts, the server finds the first entry with the code
      before END, or nothing, if the PADs in front of it are paired and it lies in the searched range. */
  lemma FindOptIsFirst(opt: seq<byte>, items: seq<Item>, cmd: byte)
    requires |opt| > OPT_LIMIT && cmd != PAD && cmd != END
    requires ReadItems(opt, 0) == Some(items) && Findable(items, cmd)
    ensures FindOpt(opt, cmd) == FirstOffset(items, cmd)
  {
    ReadsWhatHolds(opt, 0, items);
    FindOptFrom(opt, items, cmd, 0);
  }

  lemma {:induction false} PadFreeIsPaired(items: seq<Item>, code: byte)
    requires PadFree(items)
    ensures PairedBefore(items, code) && Reach(items, code) <= TotalSize(items)
  {
    if items != [] {
      PadFreeIsPaired(items[1..], code);
    }
  }

  /** The search, at offset `i`, gets to offset `k` if nothing it meets before has the code sought. */
  predicate Visits(opt: seq<byte>, i: nat, k: nat)
    requires |opt| > OPT_LIMIT
    decreases OPT_LIMIT - i
  {
    i == k || (i < k && i < OPT_LIMIT && opt[i] != END && Visits(opt, i + 2 + opt[i + 1], k))
  }

  /** From `from` on, the search gets to every option of `items`, which start at `i`, and to END. */
  predicate VisitsAll(opt: seq<byte>, from: nat, items: seq<Item>, i: nat)
    requires |opt| > OPT_LIMIT
    decreases |items|
  {
    if items == [] then Visits(opt, from, i)
    else (items[0].Opt? ==> Visits(opt, from, i)) && VisitsAll(opt, from, items[1..], i + Size(items[0]))
  }

  lemma {:induction false} VisitsAllFromNext(opt: seq<byte>, from: nat, items: seq<Item>, i: nat)
    requires |opt| > OPT_LIMIT && from < OPT_LIMIT && from < i && opt[from] != END
    ensures VisitsAll(opt, from, items, i) <==> VisitsAll(opt, from + 2 + opt[from + 1], items, i)
    decreases |items|
  {
    if items != [] {
      VisitsAllFromNext(opt, from, items[1..], i + Size(items[0]));
    }
  }

  lemma {:induction false} VisitsAllFromIff(opt: seq<byte>, items: seq<Item>, i: nat)
    requires |opt| > OPT_LIMIT && Holds(opt, i, items) && i + TotalSize(items) < OPT_LIMIT
    ensures VisitsAll(opt, i, items, i) <==> PadsPaired(items)
    decreases |items|
  {
    if items != [] {
      var next := i + Size(items[0]);
      if items[0].Opt? {
        VisitsAllFromNext(opt, i, items[1..], next);
        VisitsAllFromIff(opt, items[1..], next);
      } else if |items| >= 2 && items[1].Pad? {
        assert items[1..][0] == items[1] && items[1..][1..] == items[2..];
        VisitsAllFromNext(opt, i, items[2..], next + 1);
        VisitsAllFromIff(opt, items[2..], next + 1);
      } else {
        assert !Visits(opt, i, next);
      }
    }
  }

  /** Exactly when the search gets to every option of a well-formed list and to its END: when the PADs
      are paired. An odd number of PADs makes it jump over the entry behind them. */
  lemma VisitsAllIff(opt: seq<byte>, items: seq<Item>)
    requires |opt| > OPT_LIMIT && ReadItems(opt, 0) == Some(items) && TotalSize(items) < OPT_LIMIT
    ensures VisitsAll(opt, 0, items, 0) <==> PadsPaired(items)
  {
    ReadsWhatHolds(opt, 0, items);
    VisitsAllFromIff(opt, items, 0);
  }

  /** What the search finds it has got to; what it gets to it finds, unless the code came earlier. */
  lemma {:induction false} FoundIsVisited(opt: seq<byte>, cmd: byte, i: nat, k: nat)
    requires |opt| > OPT_LIMIT && k < OPT_LIMIT && opt[k] == cmd != END
    ensures FindOpt(opt, cmd, i) == Some(k) ==> Visits(opt, i, k)
    ensures Visits(opt, i, k) ==> FindOpt(opt, cmd, i).Some? && FindOpt(opt, cmd, i).value <= k
    decreases OPT_LIMIT - i
  {
    if i < OPT_LIMIT && opt[i] != END && opt[i] != cmd {
      FoundIsVisited(opt, cmd, i + 2 + opt[i + 1], k);
    }
  }

  function FirstData(items: seq<Item>, code: byte): Option<seq<byte>> {
    if items == [] then None
    else if items[0].Opt? && items[0].code == code then Some(items[0].data)
    else FirstData(items[1..], code)
  }

  /** The bytes behind the offset found are the data of the first option with the code. */
  lemma {:induction false} FirstOffsetData(opt: seq<byte>, items: seq<Item>, code: byte, i: nat)
    requires Holds(opt, i, items)
    ensures FirstOffset(items, code, i) == None <==> FirstData(items, code) == None
    ensures FirstOffset(items, code, i).Some? ==>
              var k := FirstOffset(items, code, i).value;
              && k + 1 < |opt|
              && k + 2 + opt[k + 1] <= |opt|
              && FirstData(items, code) == Some(opt[k + 2..k + 2 + opt[k + 1]])
    decreases |items|
  {
    if items != [] && !(items[0].Opt? && items[0].code == code) {
      FirstOffsetData(opt, items[1..], code, i + Size(items[0]));
    }
  }

  // ---------- Exactly when every option is found ----------

  /** No code comes twice. */
  predicate Distinct(items: seq<Item>) {
    items == [] || ((items[0].Opt? ==> FirstData(items[1..], items[0].code) == None) && Distinct(items[1..]))
  }

  predicate OnlyPads(items: seq<Item>) {
    items == [] || (items[0].Pad? && OnlyPads(items[1..]))
  }

  /** The PADs in front of the last option are paired. */
  predicate PairedToLast(items: seq<Item>) {
    || OnlyPads(items)
    || (items[0].Opt? && PairedToLast(items[1..]))
    || (items[0].Pad? && |items| >= 2 && items[1].Pad? && PairedToLast(items[2..]))
  }

  lemma {:induction false} NoDataInPads(items: seq<Item>, code: byte)
    requires OnlyPads(items)
    ensures FirstData(items, code) == None
  {
    if items != [] {
      NoDataInPads(items[1..], code);
    }
  }

  lemma {:induction false} PairedToEach(items: seq<Item>, code: byte)
    requires PairedToLast(items) && FirstData(items, code).Some?
    ensures PairedBefore(items, code)
  {
    if OnlyPads(items) {
      NoDataInPads(items, code);
    } else if items[0].Pad? {
      assert items[1..][0] == items[1] && items[1..][1..] == items[2..];
      PairedToEach(items[2..], code);
    } else if items[0].code != code {
      PairedToEach(items[1..], code);
    }
  }

  lemma {:induction false} ReachInTotal(items: seq<Item>, code: byte)
    ensures Reach(items, code) <= TotalSize(items)
  {
    if items != [] {
      ReachInTotal(items[1..], code);
    }
  }

  lemma {:induction false} CodeIsValid(opt: seq<byte>, items: seq<Item>, code: byte, i: nat)
    requires Holds(opt, i, items) && FirstData(items, code).Some?
    ensures code != PAD && code != END
    decreases |items|
  {
    if !(items[0].Opt? && items[0].code == code) {
      CodeIsValid(opt, items[1..], code, i + Size(items[0]));
    }
  }

  /** An option that the search misses: the one behind the first odd run of PADs. */
  lemma {:induction false} HiddenOption(opt: seq<byte>, items: seq<Item>, i: nat) returns (code: byte)
    requires |opt| > OPT_LIMIT && Holds(opt, i, items) && i + TotalSize(items) < OPT_LIMIT
    requires Distinct(items) && !PairedToLast(items)
    ensures FirstData(items, code).Some? && FindOpt(opt, code, i) != FirstOffset(items, code, i)
    ensures code != PAD && code != END
    decreases |items|
  {
    var next := i + Size(items[0]);
    assert |items| == 1 ==> OnlyPads(items[1..]);
    if items[0].Opt? {
      code := HiddenOption(opt, items[1..], next);
    } else if items[1].Opt? {
      code := items[1].code;
      assert items[1..][0] == items[1];
      assert FirstOffset(items, code, i) == Some(i + 1);
    } else {
      assert items[1..][0] == items[1] && items[1..][1..] == items[2..];
      code := HiddenOption(opt, items[2..], next + 1);
    }
  }

  /** Exactly when the search finds every option of a well-formed list without repeated codes: when the
      PADs in front of its last option are paired. */
  lemma FindsAllIff(opt: seq<byte>, items: seq<Item>)
    requires |opt| > OPT_LIMIT && ReadItems(opt, 0) == Some(items) && TotalSize(items) < OPT_LIMIT && Distinct(items)
    ensures (forall code: byte :: FirstData(items, code).Some? ==> FindOpt(opt, code) == FirstOffset(items, code))
            <==> PairedToLast(items)
  {
    ReadsWhatHolds(opt, 0, items);
    if PairedToLast(items) {
      forall code: byte | FirstData(items, code).Some?
        ensures FindOpt(opt, code) == FirstOffset(items, code)
      {
        PairedToEach(items, code);
        ReachInTotal(items, code);
        CodeIsValid(opt, items, code, 0);
        FindOptFrom(opt, items, code, 0);
      }
    } else {
      var code := HiddenOption(opt, items, 0);
    }
  }

  /** A lone PAD hides the option behind it: the reference reader sees message type 1, the server
      sees none. */
  lemma LonePadHidesOption(post: seq<byte>)
    requires |post| == OPT_LIMIT && post[50] == END
    ensures var opt, items := [PAD, 53, 1, 1, END] + post, [Pad, Opt(53, [1])];
            && ReadItems(opt, 0) == Some(items)
            && FirstOffset(items, 53) == Some(1)
            && FindOpt(opt, 53) == None
  {
    var opt, items := [PAD, 53, 1, 1, END] + post, [Pad, Opt(53, [1])];
    assert opt[3..4] == [1];
    assert Holds(opt, 4, items[1..][1..]) && Holds(opt, 1, items[1..]) && Holds(opt, 0, items);
    ReadsWhatHolds(opt, 0, items);
    assert opt[55] == post[50];
    assert FindOpt(opt, 53, 55) == None;
  }

  lemma DataCons(item: Item, rest: seq<Item>, code: byte)
    ensures TotalSize([item] + rest) == Size(item) + TotalSize(rest)
    ensures FirstData([item] + rest, code) ==
              if item.Opt? && item.code == code then Some(item.data) else FirstData(rest, code)
  {
    assert ([item] + rest)[1..] == rest;
  }

  // ---------- The writers ----------

  lemma HoldsCons(opt: seq<byte>, i: nat, item: Item, rest: seq<Item>)
    requires ItemAt(opt, i, item) && Holds(opt, i + Size(item), rest)
    ensures Holds(opt, i, [item] + rest)
  {
    assert ([item] + rest)[1..] == rest;
  }

  /** An entry stays where it is as long as the bytes up to its end do. */
  lemma ItemKept(before: seq<byte>, after: seq<byte>, end: nat, i: nat, item: Item)
    requires ItemAt(before, i, item)
    requires i + Size(item) <= end <= |before| && end <= |after| && before[..end] == after[..end]
    ensures ItemAt(after, i, item)
  {
    forall j | 0 <= j < end
      ensures before[j] == after[j]
    {
      assert before[..end][j] == after[..end][j];
    }
    if item.Opt? {
      assert before[i + 2..i + Size(item)] == after[i + 2..i + Size(item)];
    }
  }

  method OptWriteN(frame: array<byte>, opt: nat, cmd: byte, data: seq<byte>) returns (opt': nat)
    requires cmd != PAD && cmd != END && |data| < 0x100
    requires opt + 2 + |data| <= frame.Length
    modifies frame
    ensures opt' == opt + 2 + |data| && ItemAt(frame[..], opt, Opt(cmd, data))
    ensures frame[..opt] == old(frame[..opt]) && frame[opt'..] == old(frame[opt'..])
  {
    frame[opt], frame[opt + 1] := cmd, |data|;
    forall i | 0 <= i < |data| {
      frame[opt + 2 + i] := data[i];
    }
    opt' := opt + 2 + |data|;
  }

  method OptWriteU8(frame: array<byte>, opt: nat, cmd: byte, val: byte) returns (opt': nat)
    requires cmd != PAD && cmd != END && opt + 3 <= frame.Length
    modifies frame
    ensures opt' == opt + 3 && ItemAt(frame[..], opt, Opt(cmd, [val]))
    ensures frame[..opt] == old(frame[..opt]) && frame[opt'..] == old(frame[opt'..])
  {
    frame[opt], frame[opt + 1], frame[opt + 2] := cmd, 1, val;
    opt' := opt + 3;
  }

  /** The four bytes of `v`, the most significant first. */
  function BigEndian32(v: u32): (b: seq<byte>)
    ensures |b| == 4
    ensures b[0] as int * 0x100_0000 + b[1] as int * 0x1_0000 + b[2] as int * 0x100 + b[3] as int == v as int
  {
    var v8 := v / 0x100;
    var v16 := v8 / 0x100;
    [v16 / 0x100, v16 % 0x100, v8 % 0x100, v % 0x100]
  }

  method OptWriteU32(frame: array<byte>, opt: nat, cmd: byte, val: u32) returns (opt': nat)
    requires cmd != PAD && cmd != END && opt + 6 <= frame.Length
    modifies frame
    ensures opt' == opt + 6 && ItemAt(frame[..], opt, Opt(cmd, BigEndian32(val)))
    ensures frame[..opt] == old(frame[..opt]) && frame[opt'..] == old(frame[opt'..])
  {
    var b := BigEndian32(val);
    frame[opt], frame[opt + 1] := cmd, 4;
    frame[opt + 2], frame[opt + 3], frame[opt + 4], frame[opt + 5] := b[0], b[1], b[2], b[3];
    opt' := opt + 6;
  }
}
