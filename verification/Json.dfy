/** A reference reader for the part of JSON (RFC 8259) that has objects, arrays and strings, with white
    space and escapes, and the shortest printer, which writes neither. All that the reader accepts is
    valid JSON. */
module Json {
  import opened Bytes

  datatype Value = Text(text: string) | List(items: seq<Value>) | Obj(members: seq<Member>)
  datatype Member = Member(key: string, value: Value)

  datatype Parsed<+T> = Bad | Good(value: T, next: nat)

  /** Characters that a string may hold as they are (section 7 of RFC 8259). */
  predicate IsClean(c: char) {
    c != '"' && c != '\\' && c >= ' '
  }

  predicate CleanText(t: string) {
    forall i :: 0 <= i < |t| ==> IsClean(t[i])
  }

  predicate Clean(v: Value)
    decreases v, 0
  {
    match v
    case Text(t) => CleanText(t)
    case List(items) => CleanItems(items)
    case Obj(members) => CleanMembers(members)
  }

  predicate CleanItems(items: seq<Value>)
    decreases items, 1
  {
    items == [] || (Clean(items[0]) && CleanItems(items[1..]))
  }

  predicate CleanMembers(members: seq<Member>)
    decreases members, 1
  {
    members == [] || (CleanText(members[0].key) && Clean(members[0].value) && CleanMembers(members[1..]))
  }

  // ---------- Printing ----------

  function Print(v: Value): (s: string)
    decreases v, 0
  {
    match v
    case Text(t) => "\"" + t + "\""
    case List(items) => if items == [] then "[]" else "[" + PrintItems(items)
    case Obj(members) => if members == [] then "{}" else "{" + PrintMembers(members)
  }

  /** The items and the closing bracket. */
  function PrintItems(items: seq<Value>): string
    requires items != []
    decreases items, 1
  {
    Print(items[0]) + (if |items| == 1 then "]" else "," + PrintItems(items[1..]))
  }

  function PrintMember(m: Member): string
    decreases m, 1
  {
    "\"" + m.key + "\":" + Print(m.value)
  }

  /** The members and the closing brace. */
  function PrintMembers(members: seq<Member>): string
    requires members != []
    decreases members, 1
  {
    PrintMember(members[0]) + (if |members| == 1 then "}" else "," + PrintMembers(members[1..]))
  }

  // ---------- Reading ----------

  predicate IsSpace(c: char) {
    c == ' ' || c == '\t' || c == '\n' || c == '\r'
  }

  /** The first place from `i` on without white space. */
  function Skip(s: string, i: nat): (j: nat)
    ensures i <= j && (i <= |s| ==> j <= |s|)
    decreases |s| - i
  {
    if i < |s| && IsSpace(s[i]) then Skip(s, i + 1) else i
  }

  /** The character `c` comes next, behind white space. */
  predicate Comes(s: string, i: nat, c: char) {
    Skip(s, i) < |s| && s[Skip(s, i)] == c
  }

  function HexDigit(c: char): Option<nat> {
    if '0' <= c <= '9' then Some(c as nat - '0' as nat)
    else if 'a' <= c <= 'f' then Some(c as nat - 'a' as nat + 10)
    else if 'A' <= c <= 'F' then Some(c as nat - 'A' as nat + 10)
    else None
  }

  /** The number that the `n` hexadecimal digits at `i` write. */
  function HexValue(s: string, i: nat, n: nat, acc: nat := 0): (r: Option<nat>)
    ensures r.Some? ==> i + n <= |s|
    decreases n
  {
    if n == 0 then if i <= |s| then Some(acc) else None
    else if i >= |s| || HexDigit(s[i]) == None then None
    else HexValue(s, i + 1, n - 1, acc * 16 + HexDigit(s[i]).value)
  }

  /** The escape whose letter stands at `i` (section 7 of RFC 8259; no surrogates). */
  function ReadEscape(s: string, i: nat): (r: Parsed<char>)
    ensures r.Good? ==> i < r.next <= |s|
  {
    if i >= |s| then Bad
    else match s[i]
      case '"' => Good('"', i + 1)
      case '\\' => Good('\\', i + 1)
      case '/' => Good('/', i + 1)
      case 'b' => Good(8 as char, i + 1)
      case 'f' => Good(12 as char, i + 1)
      case 'n' => Good('\n', i + 1)
      case 'r' => Good('\r', i + 1)
      case 't' => Good('\t', i + 1)
      case 'u' =>
        (match HexValue(s, i + 1, 4)
         case None => Bad
         case Some(v) => if v < 0xD800 || 0xE000 <= v < 0x11_0000 then Good(v as char, i + 5) else Bad)
      case _ => Bad
  }

  /** One character of a string. */
  function ReadChar(s: string, i: nat): (r: Parsed<char>)
    ensures r.Good? ==> i < r.next <= |s|
  {
    if i >= |s| then Bad
    else if s[i] == '\\' then ReadEscape(s, i + 1)
    else if IsClean(s[i]) then Good(s[i], i + 1)
    else Bad
  }

  /** The characters of a string from `i` on, and its closing quote. */
  function ReadChars(s: string, i: nat): (r: Parsed<string>)
    ensures r.Good? ==> i < r.next <= |s|
    decreases |s| - i
  {
    if i < |s| && s[i] == '"' then Good("", i + 1)
    else
      match ReadChar(s, i)
      case Bad => Bad
      case Good(c, next) =>
        match ReadChars(s, next)
        case Bad => Bad
        case Good(rest, end) => Good([c] + rest, end)
  }

  function Read(s: string, i: nat): (r: Parsed<Value>)
    ensures r.Good? ==> i < r.next <= |s|
    decreases |s| - i, 0
  {
    if i >= |s| then Bad
    else if s[i] == '"' then
      match ReadChars(s, i + 1)
      case Bad => Bad
      case Good(t, next) => Good(Text(t), next)
    else if s[i] == '[' then
      if Comes(s, i + 1, ']') then Good(List([]), Skip(s, i + 1) + 1)
      else
        match ReadItems(s, i + 1)
        case Bad => Bad
        case Good(items, next) => Good(List(items), next)
    else if s[i] == '{' then
      if Comes(s, i + 1, '}') then Good(Obj([]), Skip(s, i + 1) + 1)
      else
        match ReadMembers(s, i + 1)
        case Bad => Bad
        case Good(members, next) => Good(Obj(members), next)
    else Bad
  }

  function ReadItems(s: string, i: nat): (r: Parsed<seq<Value>>)
    ensures r.Good? ==> i < r.next <= |s| && r.value != []
    decreases |s| - i, 1
  {
    match Read(s, Skip(s, i))
    case Bad => Bad
    case Good(item, next) =>
      if Comes(s, next, ']') then Good([item], Skip(s, next) + 1)
      else if Comes(s, next, ',') then
        match ReadItems(s, Skip(s, next) + 1)
        case Bad => Bad
        case Good(items, end) => Good([item] + items, end)
      else Bad
  }

  /** A member, white space in front of it skipped. */
  function ReadMember(s: string, i: nat): (r: Parsed<Member>)
    ensures r.Good? ==> i < r.next <= |s|
    decreases |s| - i, 1
  {
    if !Comes(s, i, '"') then Bad
    else
      match ReadChars(s, Skip(s, i) + 1)
      case Bad => Bad
      case Good(key, end) =>
        if !Comes(s, end, ':') then Bad
        else
          match Read(s, Skip(s, Skip(s, end) + 1))
          case Bad => Bad
          case Good(v, next) => Good(Member(key, v), next)
  }

  function ReadMembers(s: string, i: nat): (r: Parsed<seq<Member>>)
    ensures r.Good? ==> i < r.next <= |s| && r.value != []
    decreases |s| - i, 2
  {
    match ReadMember(s, i)
    case Bad => Bad
    case Good(m, next) =>
      if Comes(s, next, '}') then Good([m], Skip(s, next) + 1)
      else if Comes(s, next, ',') then
        match ReadMembers(s, Skip(s, next) + 1)
        case Bad => Bad
        case Good(members, end) => Good([m] + members, end)
      else Bad
  }

  /** The value a whole text stands for. */
  function ReadAll(s: string): Option<Value> {
    match Read(s, Skip(s, 0))
    case Bad => None
    case Good(v, next) => if Skip(s, next) == |s| then Some(v) else None
  }

  // ---------- Reading undoes printing ----------

  predicate At(s: string, i: nat, t: string) {
    i + |t| <= |s| && s[i..i + |t|] == t
  }

  /** This value stands from `i` up to `end`. */
  predicate ValueFrom(s: string, i: nat, v: Value, end: nat) {
    Clean(v) && At(s, i, Print(v)) && end == i + |Print(v)|
  }

  /** These items, or members, and their closing bracket stand from `i` up to `end`. */
  predicate ItemsFrom(s: string, i: nat, items: seq<Value>, end: nat) {
    items != [] && CleanItems(items) && At(s, i, PrintItems(items)) && end == i + |PrintItems(items)|
  }

  predicate MemberFrom(s: string, i: nat, m: Member, end: nat) {
    CleanText(m.key) && Clean(m.value) && At(s, i, PrintMember(m)) && end == i + |PrintMember(m)|
  }

  predicate MembersFrom(s: string, i: nat, members: seq<Member>, end: nat) {
    members != [] && CleanMembers(members) && At(s, i, PrintMembers(members)) && end == i + |PrintMembers(members)|
  }

  lemma {:induction false} AtSplit(s: string, i: nat, a: string, b: string)
    ensures At(s, i, a + b) <==> At(s, i, a) && At(s, i + |a|, b)
  {
    if i + |a| + |b| <= |s| {
      var whole := s[i..i + |a| + |b|];
      assert whole[..|a|] == s[i..i + |a|] && whole[|a|..] == s[i + |a|..i + |a| + |b|];
      assert whole == whole[..|a|] + whole[|a|..];
    }
  }

  lemma {:induction false} AtChar(s: string, i: nat, c: char)
    ensures At(s, i, [c]) <==> i < |s| && s[i] == c
  {
  }

  lemma {:induction false} AtThen(s: string, i: nat, head: string, c: char)
    ensures At(s, i, head + [c]) <==> At(s, i, head) && i + |head| < |s| && s[i + |head|] == c
  {
    AtSplit(s, i, head, [c]);
    AtChar(s, i + |head|, c);
  }

  lemma {:induction false} AtThenMore(s: string, i: nat, head: string, c: char, rest: string)
    ensures At(s, i, head + ([c] + rest)) <==>
              At(s, i, head) && i + |head| < |s| && s[i + |head|] == c && At(s, i + |head| + 1, rest)
  {
    AtSplit(s, i, head, [c] + rest);
    AtSplit(s, i + |head|, [c], rest);
    AtChar(s, i + |head|, c);
  }

  lemma {:induction false} Behind(s: string, i: nat, c: char, rest: string)
    ensures At(s, i, [c] + rest) <==> i < |s| && s[i] == c && At(s, i + 1, rest)
  {
    AtSplit(s, i, [c], rest);
    AtChar(s, i, c);
  }

  /** How a non-empty array's items stand in a text. */
  lemma {:induction false} ItemsAt(s: string, i: nat, item: Value, rest: seq<Value>)
    ensures CleanItems([item] + rest) <==> Clean(item) && CleanItems(rest)
    ensures |PrintItems([item] + rest)| == |Print(item)| + 1 + (if rest == [] then 0 else |PrintItems(rest)|)
    ensures var next := i + |Print(item)|;
            At(s, i, PrintItems([item] + rest)) <==>
              && At(s, i, Print(item)) && next < |s|
              && if rest == [] then s[next] == ']' else s[next] == ',' && At(s, next + 1, PrintItems(rest))
  {
    assert ([item] + rest)[1..] == rest;
    if rest == [] {
      AtThen(s, i, Print(item), ']');
    } else {
      AtThenMore(s, i, Print(item), ',', PrintItems(rest));
    }
  }

  lemma {:induction false} MembersAt(s: string, i: nat, m: Member, rest: seq<Member>)
    ensures CleanMembers([m] + rest) <==> CleanText(m.key) && Clean(m.value) && CleanMembers(rest)
    ensures |PrintMembers([m] + rest)| == |PrintMember(m)| + 1 + (if rest == [] then 0 else |PrintMembers(rest)|)
    ensures var next := i + |PrintMember(m)|;
            At(s, i, PrintMembers([m] + rest)) <==>
              && At(s, i, PrintMember(m)) && next < |s|
              && if rest == [] then s[next] == '}' else s[next] == ',' && At(s, next + 1, PrintMembers(rest))
  {
    assert ([m] + rest)[1..] == rest;
    if rest == [] {
      AtThen(s, i, PrintMember(m), '}');
    } else {
      AtThenMore(s, i, PrintMember(m), ',', PrintMembers(rest));
    }
  }

  lemma {:induction false} CharsAt(s: string, i: nat, t: string)
    requires CleanText(t) && At(s, i, t + "\"")
    ensures ReadChars(s, i) == Good(t, i + |t| + 1)
    decreases |t|
  {
    AtThen(s, i, t, '"');
    if t != "" {
      var rest := t[1..];
      assert t == [t[0]] + rest;
      AtSplit(s, i, [t[0]], rest);
      AtChar(s, i, t[0]);
      AtThen(s, i + 1, rest, '"');
      CharsAt(s, i + 1, rest);
    }
  }

  lemma {:induction false} ReadText(s: string, i: nat, t: string)
    requires CleanText(t) && At(s, i, "\"" + t + "\"")
    ensures i < |s| && s[i] == '"' && ReadChars(s, i + 1) == Good(t, i + |t| + 2)
  {
    assert "\"" + t + "\"" == ['"'] + (t + "\"");
    Behind(s, i, '"', t + "\"");
    CharsAt(s, i + 1, t);
  }

  lemma {:induction false} PrintHead(v: Value)
    ensures Print(v) != "" && Print(v)[0] != ']' && !IsSpace(Print(v)[0])
  {
  }

  lemma {:induction false} Starts(s: string, i: nat, v: Value)
    requires At(s, i, Print(v))
    ensures i < |s| && s[i] != ']' && Skip(s, i) == i
  {
    PrintHead(v);
    assert s[i..i + |Print(v)|][0] == s[i];
  }

  lemma {:induction false} NextIs(s: string, i: nat, c: char)
    requires i < |s| && s[i] == c && !IsSpace(c)
    ensures Skip(s, i) == i && forall d :: Comes(s, i, d) <==> d == c
  {
  }

  lemma {:induction false} ItemsRead(s: string, i: nat, items: seq<Value>, next: nat, end: nat)
    requires items != [] && Skip(s, i) == i && Read(s, i) == Good(items[0], next) && next < |s|
    requires if items[1..] == [] then s[next] == ']' && end == next + 1
             else s[next] == ',' && ReadItems(s, next + 1) == Good(items[1..], end)
    ensures ReadItems(s, i) == Good(items, end)
  {
    NextIs(s, next, s[next]);
    assert [items[0]] + items[1..] == items;
    assert items[1..] == [] ==> items == [items[0]];
  }

  lemma {:induction false} MembersRead(s: string, i: nat, members: seq<Member>, next: nat, end: nat)
    requires members != [] && ReadMember(s, i) == Good(members[0], next) && next < |s|
    requires if members[1..] == [] then s[next] == '}' && end == next + 1
             else s[next] == ',' && ReadMembers(s, next + 1) == Good(members[1..], end)
    ensures ReadMembers(s, i) == Good(members, end)
  {
    NextIs(s, next, s[next]);
    assert [members[0]] + members[1..] == members;
    assert members[1..] == [] ==> members == [members[0]];
  }

  lemma {:induction false} EmptyRead(s: string, i: nat, v: Value)
    requires (v == List([]) || v == Obj([])) && At(s, i, Print(v))
    ensures Read(s, i) == Good(v, i + 2)
  {
    assert s[i..i + 2][0] == s[i] && s[i..i + 2][1] == s[i + 1];
    NextIs(s, i + 1, s[i + 1]);
  }

  lemma {:induction false} ListRead(s: string, i: nat, items: seq<Value>, next: nat)
    requires i + 1 < |s| && s[i] == '[' && s[i + 1] != ']' && Skip(s, i + 1) == i + 1
    requires ReadItems(s, i + 1) == Good(items, next)
    ensures Read(s, i) == Good(List(items), next)
  {
  }

  lemma {:induction false} ObjRead(s: string, i: nat, members: seq<Member>, next: nat)
    requires i + 1 < |s| && s[i] == '{' && s[i + 1] != '}' && Skip(s, i + 1) == i + 1
    requires ReadMembers(s, i + 1) == Good(members, next)
    ensures Read(s, i) == Good(Obj(members), next)
  {
  }

  /** Where a clean value was printed, the reader reads it, whatever follows. */
  lemma {:induction false} ReadPrinted(s: string, i: nat, v: Value, end: nat)
    requires ValueFrom(s, i, v, end)
    ensures Read(s, i) == Good(v, end)
    decreases v, 0
  {
    match v
    case Text(t) => ReadText(s, i, t);
    case List(items) =>
      if items == [] {
        EmptyRead(s, i, v);
      } else {
        Behind(s, i, '[', PrintItems(items));
        ReadPrintedItems(s, i + 1, items, end);
        ListRead(s, i, items, end);
      }
    case Obj(members) =>
      if members == [] {
        EmptyRead(s, i, v);
      } else {
        Behind(s, i, '{', PrintMembers(members));
        ReadPrintedMembers(s, i + 1, members, end);
        ObjRead(s, i, members, end);
      }
  }

  /** The first of some printed items, and what follows it. */
  lemma {:induction false} FirstItem(s: string, i: nat, items: seq<Value>, end: nat) returns (next: nat)
    requires ItemsFrom(s, i, items, end)
    ensures ValueFrom(s, i, items[0], next) && next < |s|
    ensures if items[1..] == [] then s[next] == ']' && end == next + 1
            else s[next] == ',' && ItemsFrom(s, next + 1, items[1..], end)
  {
    next := i + |Print(items[0])|;
    assert items == [items[0]] + items[1..];
    ItemsAt(s, i, items[0], items[1..]);
  }

  lemma {:induction false} ReadPrintedItems(s: string, i: nat, items: seq<Value>, end: nat)
    requires ItemsFrom(s, i, items, end)
    ensures ReadItems(s, i) == Good(items, end)
    ensures i < |s| && s[i] != ']' && Skip(s, i) == i
    decreases items, 1
  {
    var next := FirstItem(s, i, items, end);
    Starts(s, i, items[0]);
    ReadPrinted(s, i, items[0], next);
    if items[1..] != [] {
      ReadPrintedItems(s, next + 1, items[1..], end);
    }
    ItemsRead(s, i, items, next, end);
  }

  lemma {:induction false} MemberAt(s: string, i: nat, m: Member)
    ensures var k := i + |m.key| + 2;
            At(s, i, PrintMember(m)) <==>
              At(s, i, "\"" + m.key + "\"") && k < |s| && s[k] == ':' && At(s, k + 1, Print(m.value))
    ensures |PrintMember(m)| == |m.key| + 3 + |Print(m.value)|
  {
    var quoted := "\"" + m.key + "\"";
    assert PrintMember(m) == quoted + ([':'] + Print(m.value));
    AtThenMore(s, i, quoted, ':', Print(m.value));
  }

  lemma {:induction false} ValueAt(s: string, i: nat, m: Member)
    requires At(s, i, PrintMember(m))
    ensures At(s, i + |m.key| + 3, Print(m.value)) && |PrintMember(m)| == |m.key| + 3 + |Print(m.value)|
  {
    MemberAt(s, i, m);
  }

  lemma {:induction false} KeyRead(s: string, i: nat, m: Member)
    requires CleanText(m.key) && At(s, i, PrintMember(m))
    ensures i + |m.key| + 2 < |s| && s[i] == '"' && ReadChars(s, i + 1) == Good(m.key, i + |m.key| + 2)
    ensures s[i + |m.key| + 2] == ':' && Skip(s, i + |m.key| + 3) == i + |m.key| + 3
  {
    MemberAt(s, i, m);
    ReadText(s, i, m.key);
    Starts(s, i + |m.key| + 3, m.value);
  }

  lemma {:induction false} KeyThenValue(s: string, i: nat, key: string, k: nat, v: Value, next: nat)
    requires i < k < |s| && s[i] == '"' && s[k] == ':' && ReadChars(s, i + 1) == Good(key, k)
    requires Skip(s, k + 1) == k + 1 && Read(s, k + 1) == Good(v, next)
    ensures ReadMember(s, i) == Good(Member(key, v), next)
  {
    NextIs(s, i, '"');
    NextIs(s, k, ':');
  }

  lemma {:induction false} MemberRead(s: string, i: nat, m: Member, next: nat)
    requires CleanText(m.key) && At(s, i, PrintMember(m)) && Read(s, i + |m.key| + 3) == Good(m.value, next)
    ensures ReadMember(s, i) == Good(m, next)
    ensures i < |s| && s[i] != '}' && Skip(s, i) == i
  {
    KeyRead(s, i, m);
    KeyThenValue(s, i, m.key, i + |m.key| + 2, m.value, next);
    NextIs(s, i, '"');
  }

  lemma {:induction false} ReadPrintedMember(s: string, i: nat, m: Member, end: nat)
    requires MemberFrom(s, i, m, end)
    ensures ReadMember(s, i) == Good(m, end)
    ensures i < |s| && s[i] != '}' && Skip(s, i) == i
    decreases m, 1
  {
    ValueAt(s, i, m);
    ReadPrinted(s, i + |m.key| + 3, m.value, end);
    MemberRead(s, i, m, end);
  }

  /** The first of some printed members, and what follows it. */
  lemma {:induction false} FirstMember(s: string, i: nat, members: seq<Member>, end: nat) returns (next: nat)
    requires MembersFrom(s, i, members, end)
    ensures MemberFrom(s, i, members[0], next) && next < |s|
    ensures if members[1..] == [] then s[next] == '}' && end == next + 1
            else s[next] == ',' && MembersFrom(s, next + 1, members[1..], end)
  {
    next := i + |PrintMember(members[0])|;
    assert members == [members[0]] + members[1..];
    MembersAt(s, i, members[0], members[1..]);
  }

  lemma {:induction false} ReadPrintedMembers(s: string, i: nat, members: seq<Member>, end: nat)
    requires MembersFrom(s, i, members, end)
    ensures ReadMembers(s, i) == Good(members, end)
    ensures i < |s| && s[i] != '}' && Skip(s, i) == i
    decreases members, 1
  {
    var next := FirstMember(s, i, members, end);
    ReadPrintedMember(s, i, members[0], next);
    if members[1..] != [] {
      ReadPrintedMembers(s, next + 1, members[1..], end);
    }
    MembersRead(s, i, members, next, end);
  }

  /** A clean value's shortest text reads as the value. */
  lemma {:induction false} PrintedReads(v: Value)
    requires Clean(v)
    ensures ReadAll(Print(v)) == Some(v)
  {
    var s := Print(v);
    assert s[0..|s|] == s;
    Starts(s, 0, v);
    ReadPrinted(s, 0, v, |s|);
  }

  // ---------- No text is shorter ----------

  /** The least number of characters that write these: an escape takes at least two. */
  function CharsCost(t: string): nat {
    if t == "" then 0 else (if IsClean(t[0]) then 1 else 2) + CharsCost(t[1..])
  }

  function Cost(v: Value): nat
    decreases v, 0
  {
    match v
    case Text(t) => CharsCost(t) + 2
    case List(items) => if items == [] then 2 else 1 + ItemsCost(items)
    case Obj(members) => if members == [] then 2 else 1 + MembersCost(members)
  }

  function ItemsCost(items: seq<Value>): nat
    decreases items, 1
  {
    if items == [] then 0 else Cost(items[0]) + 1 + ItemsCost(items[1..])
  }

  function MemberCost(m: Member): nat
    decreases m, 1
  {
    CharsCost(m.key) + 3 + Cost(m.value)
  }

  function MembersCost(members: seq<Member>): nat
    decreases members, 2
  {
    if members == [] then 0 else MemberCost(members[0]) + 1 + MembersCost(members[1..])
  }

  lemma {:induction false} CostCons(c: char, rest: string)
    ensures CharsCost([c] + rest) == (if IsClean(c) then 1 else 2) + CharsCost(rest)
  {
    assert ([c] + rest)[1..] == rest;
  }

  lemma {:induction false} ItemsCostCons(item: Value, rest: seq<Value>)
    ensures ItemsCost([item] + rest) == Cost(item) + 1 + ItemsCost(rest)
  {
    assert ([item] + rest)[1..] == rest;
  }

  lemma {:induction false} MembersCostCons(m: Member, rest: seq<Member>)
    ensures MembersCost([m] + rest) == MemberCost(m) + 1 + MembersCost(rest)
  {
    assert ([m] + rest)[1..] == rest;
  }

  lemma {:induction false} CharsTake(s: string, i: nat)
    requires ReadChars(s, i).Good?
    ensures ReadChars(s, i).next >= i + CharsCost(ReadChars(s, i).value) + 1
    decreases |s| - i
  {
    if s[i] != '"' {
      var c := ReadChar(s, i);
      CharsTake(s, c.next);
      CostCons(c.value, ReadChars(s, c.next).value);
    }
  }

  /** What the reader reads takes at least the value's cost. */
  lemma {:induction false} ValueTakes(s: string, i: nat)
    requires Read(s, i).Good?
    ensures Read(s, i).next >= i + Cost(Read(s, i).value)
    decreases |s| - i, 0
  {
    if s[i] == '"' {
      CharsTake(s, i + 1);
    } else if s[i] == '[' {
      if !Comes(s, i + 1, ']') {
        ItemsTake(s, i + 1);
      }
    } else if !Comes(s, i + 1, '}') {
      MembersTake(s, i + 1);
    }
  }

  lemma {:induction false} ItemsTake(s: string, i: nat)
    requires ReadItems(s, i).Good?
    ensures ReadItems(s, i).next >= i + ItemsCost(ReadItems(s, i).value)
    decreases |s| - i, 1
  {
    var item := Read(s, Skip(s, i));
    ValueTakes(s, Skip(s, i));
    if Comes(s, item.next, ']') {
      ItemsCostCons(item.value, []);
      assert [item.value] + [] == [item.value];
    } else {
      ItemsTake(s, Skip(s, item.next) + 1);
      ItemsCostCons(item.value, ReadItems(s, Skip(s, item.next) + 1).value);
    }
  }

  lemma {:induction false} MemberTakes(s: string, i: nat)
    requires ReadMember(s, i).Good?
    ensures ReadMember(s, i).next >= i + MemberCost(ReadMember(s, i).value)
    decreases |s| - i, 1
  {
    var key := ReadChars(s, Skip(s, i) + 1);
    CharsTake(s, Skip(s, i) + 1);
    ValueTakes(s, Skip(s, Skip(s, key.next) + 1));
  }

  lemma {:induction false} MembersTake(s: string, i: nat)
    requires ReadMembers(s, i).Good?
    ensures ReadMembers(s, i).next >= i + MembersCost(ReadMembers(s, i).value)
    decreases |s| - i, 2
  {
    var m := ReadMember(s, i);
    MemberTakes(s, i);
    if Comes(s, m.next, '}') {
      MembersCostCons(m.value, []);
      assert [m.value] + [] == [m.value];
    } else {
      MembersTake(s, Skip(s, m.next) + 1);
      MembersCostCons(m.value, ReadMembers(s, Skip(s, m.next) + 1).value);
    }
  }

  lemma {:induction false} TextCostIff(t: string)
    ensures CharsCost(t) >= |t| && (CharsCost(t) == |t| <==> CleanText(t))
  {
    if t != "" {
      TextCostIff(t[1..]);
      assert CleanText(t) <==> IsClean(t[0]) && CleanText(t[1..]) by {
        assert forall i :: 0 < i < |t| ==> t[i] == t[1..][i - 1];
        assert forall i :: 0 <= i < |t[1..]| ==> t[1..][i] == t[i + 1];
      }
    }
  }

  /** A value costs as much as its shortest text exactly if it is clean, and else more. */
  lemma {:induction false} CostIff(v: Value)
    ensures Cost(v) >= |Print(v)| && (Cost(v) == |Print(v)| <==> Clean(v))
    decreases v, 0
  {
    match v
    case Text(t) => TextCostIff(t);
    case List(items) => ItemsCostIff(items);
    case Obj(members) => MembersCostIff(members);
  }

  lemma {:induction false} ItemsCostIff(items: seq<Value>)
    ensures var n := if items == [] then 0 else |PrintItems(items)|;
            ItemsCost(items) >= n && (ItemsCost(items) == n <==> CleanItems(items))
    decreases items, 1
  {
    if items != [] {
      CostIff(items[0]);
      ItemsCostIff(items[1..]);
    }
  }

  lemma {:induction false} MembersCostIff(members: seq<Member>)
    ensures var n := if members == [] then 0 else |PrintMembers(members)|;
            MembersCost(members) >= n && (MembersCost(members) == n <==> CleanMembers(members))
    decreases members, 1
  {
    if members != [] {
      TextCostIff(members[0].key);
      CostIff(members[0].value);
      MembersCostIff(members[1..]);
    }
  }

  /** A text that reads as a value is at least as long as the value's cost, whatever escapes and white
      space it has. */
  lemma {:induction false} ReadTakes(s: string, v: Value)
    requires ReadAll(s) == Some(v)
    ensures |s| >= Cost(v)
  {
    ValueTakes(s, Skip(s, 0));
  }
}
