/** The measurement report: an object with a nested list, written member by member into a stream. */
module Measurement {
  import opened Bytes
  import opened Json

  datatype Kind = BatteryVoltage | InternalBatteryVoltage | Current | Temperature
  datatype Status = Running | Idle | BatteryMode | Sleeping | Offline

  function KindText(k: Kind): string {
    match k
    case BatteryVoltage => "BATTERY_VOLTAGE"
    case InternalBatteryVoltage => "INTERNAL_BATTERY_VOLTAGE"
    case Current => "CURRENT"
    case Temperature => "TEMPERATURE"
  }

  function StatusText(s: Status): string {
    match s
    case Running => "RUNNING"
    case Idle => "IDLE"
    case BatteryMode => "BATTERY_MODE"
    case Sleeping => "SLEEPING"
    case Offline => "OFFLINE"
  }

  /** One measurement; `printed` is the decimal text of its value. */
  datatype CurrentMeasurement = CurrentMeasurement(name: string, kind: Kind, printed: string)

  datatype InterfaceMeasurement = InterfaceMeasurement(uuid: string, status: Status, list: seq<CurrentMeasurement>)

  // ---------- What the text should stand for ----------

  function MeasurementValue(m: CurrentMeasurement): Value {
    Obj([Member("name", Text(m.name)), Member("type", Text(KindText(m.kind))), Member("value", Text(m.printed))])
  }

  function MeasurementValues(list: seq<CurrentMeasurement>): (values: seq<Value>)
    ensures |values| == |list|
  {
    if list == [] then [] else [MeasurementValue(list[0])] + MeasurementValues(list[1..])
  }

  function ReportValue(r: InterfaceMeasurement): Value {
    Obj([Member("interfaceUUID", Text(r.uuid)),
         Member("measurementList", List(MeasurementValues(r.list))),
         Member("status", Text(StatusText(r.status)))])
  }

  // ---------- The writers ----------

  /** A map's entries in key order. */
  type Entries = seq<(string, string)>

  function Quoted(s: string): string {
    "\"" + s + "\""
  }

  /** A value that begins with '[' is written as it is, if `raw` allows that; others are quoted. */
  function Second(s: string, raw: bool): string {
    if raw && s != "" && s[0] == '[' then s else Quoted(s)
  }

  function Entry(e: (string, string), raw: bool): string {
    Quoted(e.0) + ":" + Second(e.1, raw)
  }

  /** The entries from here on and the closing brace. */
  function EntriesText(entries: Entries, raw: bool): string {
    if entries == [] then "}"
    else Entry(entries[0], raw) + (if |entries| == 1 then "}" else "," + EntriesText(entries[1..], raw))
  }

  method WriteEntry(before: string, first: string, second: string, raw: bool) returns (stream: string)
    ensures stream == before + Entry((first, second), raw)
  {
    stream := before + "\"";
    stream := stream + first;
    stream := stream + "\"";
    stream := stream + ":";
    if raw && second != "" && second[0] == '[' {
      stream := stream + second;
    } else {
      stream := stream + "\"";
      stream := stream + second;
      stream := stream + "\"";
    }
  }

  lemma EntryWritten(before: string, rest: Entries, raw: bool)
    requires rest != []
    ensures before + Entry(rest[0], raw) + (if |rest| == 1 then "" else ",") + EntriesText(rest[1..], raw)
            == before + EntriesText(rest, raw)
  {
    if |rest| == 1 {
      assert before + Entry(rest[0], raw) + "" + "}" == before + (Entry(rest[0], raw) + "}");
    } else {
      var tail := EntriesText(rest[1..], raw);
      assert before + Entry(rest[0], raw) + "," + tail == before + (Entry(rest[0], raw) + ("," + tail));
    }
  }

  method WriteEntries(entries: Entries, raw: bool) returns (stream: string)
    ensures stream == "{" + EntriesText(entries, raw)
  {
    stream := "{";
    var count := 0;
    for k := 0 to |entries|
      invariant count == k
      invariant stream + EntriesText(entries[k..], raw) == "{" + EntriesText(entries, raw)
    {
      ghost var rest := entries[k..];
      assert rest[0] == entries[k] && rest[1..] == entries[k + 1..];
      EntryWritten(stream, rest, raw);
      stream := WriteEntry(stream, entries[k].0, entries[k].1, raw);
      count := count + 1;
      if count < |entries| {
        stream := stream + ",";
      }
    }
    stream := stream + "}";
  }

  function MeasurementEntries(m: CurrentMeasurement): Entries {
    [("name", m.name), ("type", KindText(m.kind)), ("value", m.printed)]
  }

  lemma ThreeEntries(a: (string, string), b: (string, string), c: (string, string), raw: bool)
    ensures EntriesText([a, b, c], raw) == Entry(a, raw) + ("," + (Entry(b, raw) + ("," + (Entry(c, raw) + "}"))))
  {
    assert [a, b, c][1..] == [b, c] && [b, c][1..] == [c];
    assert EntriesText([c], raw) == Entry(c, raw) + "}";
    assert EntriesText([b, c], raw) == Entry(b, raw) + ("," + EntriesText([c], raw));
  }

  lemma ThreeMembers(a: Member, b: Member, c: Member)
    ensures Print(Obj([a, b, c])) ==
              "{" + (PrintMember(a) + ("," + (PrintMember(b) + ("," + (PrintMember(c) + "}")))))
  {
    assert [a, b, c][1..] == [b, c] && [b, c][1..] == [c];
    assert PrintMembers([c]) == PrintMember(c) + "}";
    assert PrintMembers([b, c]) == PrintMember(b) + ("," + PrintMembers([c]));
  }

  /** An entry is written as the member it stands for is printed. */
  lemma EntryIsMember(e: (string, string), m: Member, raw: bool)
    requires e.0 == m.key && Second(e.1, raw) == Print(m.value)
    ensures Entry(e, raw) == PrintMember(m)
  {
    assert Quoted(e.0) + ":" == "\"" + m.key + "\":";
  }

  lemma MeasurementPrinted(m: CurrentMeasurement)
    ensures "{" + EntriesText(MeasurementEntries(m), false) == Print(MeasurementValue(m))
  {
    var e0, e1, e2 := ("name", m.name), ("type", KindText(m.kind)), ("value", m.printed);
    var m0, m1 := Member("name", Text(m.name)), Member("type", Text(KindText(m.kind)));
    var m2 := Member("value", Text(m.printed));
    ThreeEntries(e0, e1, e2, false);
    ThreeMembers(m0, m1, m2);
    EntryIsMember(e0, m0, false);
    EntryIsMember(e1, m1, false);
    EntryIsMember(e2, m2, false);
  }

  method SerializeMeasurement(m: CurrentMeasurement) returns (text: string)
    ensures text == Print(MeasurementValue(m))
  {
    text := WriteEntries(MeasurementEntries(m), false);
    MeasurementPrinted(m);
  }

  // ---------- The report ----------

  /** The list, comma-separated and in brackets. */
  function ListText(list: seq<CurrentMeasurement>): string {
    Print(List(MeasurementValues(list)))
  }

  function ReportEntries(r: InterfaceMeasurement): Entries {
    [("interfaceUUID", r.uuid), ("measurementList", ListText(r.list)), ("status", StatusText(r.status))]
  }

  function ReportText(r: InterfaceMeasurement): string {
    "{" + EntriesText(ReportEntries(r), true)
  }

  /** What is still to be written of the list, behind its first `k` items. */
  function ItemsLeft(list: seq<CurrentMeasurement>, k: nat): string
    requires k <= |list|
  {
    if k == |list| then "]" else PrintItems(MeasurementValues(list[k..]))
  }

  lemma ItemWritten(before: string, list: seq<CurrentMeasurement>, k: nat)
    requires k < |list|
    ensures before + Print(MeasurementValue(list[k])) + (if k + 1 == |list| then "" else ",") + ItemsLeft(list, k + 1)
            == before + ItemsLeft(list, k)
  {
    var rest := list[k..];
    assert rest[0] == list[k] && rest[1..] == list[k + 1..];
    var p, values := Print(MeasurementValue(list[k])), MeasurementValues(rest);
    assert values[1..] == MeasurementValues(list[k + 1..]);
    if k + 1 == |list| {
      assert before + p + "" + "]" == before + (p + "]");
    } else {
      var tail := PrintItems(values[1..]);
      assert before + p + "," + tail == before + (p + ("," + tail));
    }
  }

  method SerializeList(list: seq<CurrentMeasurement>) returns (arrayStream: string)
    ensures arrayStream == ListText(list)
  {
    arrayStream := "[";
    var count := 0;
    assert list[0..] == list;
    for k := 0 to |list|
      invariant count == k
      invariant arrayStream + ItemsLeft(list, k) == ListText(list)
    {
      ItemWritten(arrayStream, list, k);
      var item := SerializeMeasurement(list[k]);
      arrayStream := arrayStream + item;
      count := count + 1;
      if count < |list| {
        arrayStream := arrayStream + ",";
      }
    }
    arrayStream := arrayStream + "]";
  }

  method Serialize(r: InterfaceMeasurement) returns (text: string)
    ensures text == ReportText(r)
  {
    var arrayStream := SerializeList(r.list);
    var status := StatusText(r.status);
    text := WriteEntries([("interfaceUUID", r.uuid), ("measurementList", arrayStream), ("status", status)], true);
  }

  // ---------- Decoding ----------

  predicate CleanMeasurement(m: CurrentMeasurement) {
    CleanText(m.name) && CleanText(m.printed)
  }

  predicate Bracketed(uuid: string) {
    uuid != "" && uuid[0] == '['
  }

  /** No quote, backslash or control character in any string, and no UUID that looks like a list. */
  predicate Decodable(r: InterfaceMeasurement) {
    && CleanText(r.uuid) && !Bracketed(r.uuid)
    && forall m | m in r.list :: CleanMeasurement(m)
  }

  lemma ThreeClean(a: Member, b: Member, c: Member)
    ensures Clean(Obj([a, b, c])) <==>
              && CleanText(a.key) && Clean(a.value) && CleanText(b.key) && Clean(b.value)
              && CleanText(c.key) && Clean(c.value)
  {
    assert [a, b, c][1..] == [b, c] && [b, c][1..] == [c] && [c][1..] == [];
    assert CleanMembers([c]) <==> CleanText(c.key) && Clean(c.value);
    assert CleanMembers([b, c]) <==> CleanText(b.key) && Clean(b.value) && CleanMembers([c]);
  }

  lemma NamesClean()
    ensures CleanText("name") && CleanText("type") && CleanText("value")
  {
  }

  lemma KindClean(k: Kind)
    ensures CleanText(KindText(k))
  {
    match k
    case BatteryVoltage => assert CleanText("BATTERY_VOLTAGE");
    case InternalBatteryVoltage => assert CleanText("INTERNAL_BATTERY_VOLTAGE");
    case Current => assert CleanText("CURRENT");
    case Temperature => assert CleanText("TEMPERATURE");
  }

  lemma ValueClean(m: CurrentMeasurement)
    ensures Clean(MeasurementValue(m)) <==> CleanMeasurement(m)
  {
    var a, b, c := Text(m.name), Text(KindText(m.kind)), Text(m.printed);
    NamesClean();
    KindClean(m.kind);
    ThreeClean(Member("name", a), Member("type", b), Member("value", c));
    assert Clean(a) == CleanText(m.name) && Clean(b) && Clean(c) == CleanText(m.printed);
  }

  lemma {:induction false} ValuesClean(list: seq<CurrentMeasurement>)
    ensures CleanItems(MeasurementValues(list)) <==> forall m | m in list :: CleanMeasurement(m)
  {
    if list != [] {
      ValuesClean(list[1..]);
      ValueClean(list[0]);
      var values := MeasurementValues(list);
      assert values[0] == MeasurementValue(list[0]) && values[1..] == MeasurementValues(list[1..]);
      assert forall m :: m in list <==> m == list[0] || m in list[1..];
    }
  }

  lemma FixedTextsClean(s: Status)
    ensures CleanText("interfaceUUID") && CleanText("measurementList") && CleanText("status")
    ensures Clean(Text(StatusText(s)))
  {
  }

  lemma ReportClean(r: InterfaceMeasurement)
    ensures Clean(ReportValue(r)) <==> CleanText(r.uuid) && forall m | m in r.list :: CleanMeasurement(m)
  {
    var m0 := Member("interfaceUUID", Text(r.uuid));
    var m1 := Member("measurementList", List(MeasurementValues(r.list)));
    var m2 := Member("status", Text(StatusText(r.status)));
    ThreeClean(m0, m1, m2);
    ValuesClean(r.list);
    FixedTextsClean(r.status);
    assert Clean(m1.value) <==> CleanItems(MeasurementValues(r.list));
  }

  /** The writers' text is the shortest text of the value, or two characters less if the UUID begins with
      '[', because that is then not quoted. */
  lemma ReportLength(r: InterfaceMeasurement)
    ensures if Bracketed(r.uuid) then |ReportText(r)| + 2 == |Print(ReportValue(r))|
            else ReportText(r) == Print(ReportValue(r))
  {
    var e0, e1 := ("interfaceUUID", r.uuid), ("measurementList", ListText(r.list));
    var e2 := ("status", StatusText(r.status));
    var m0 := Member("interfaceUUID", Text(r.uuid));
    var m1 := Member("measurementList", List(MeasurementValues(r.list)));
    var m2 := Member("status", Text(StatusText(r.status)));
    ThreeEntries(e0, e1, e2, true);
    ThreeMembers(m0, m1, m2);
    EntryIsMember(e1, m1, true);
    EntryIsMember(e2, m2, true);
    if !Bracketed(r.uuid) {
      EntryIsMember(e0, m0, true);
    } else {
      assert |Entry(e0, true)| + 2 == |PrintMember(m0)|;
    }
  }

  /** Exactly when a report decodes to the same UUID, status and list of (name, type, printed value). No
      reader with escapes and white space can make up for a missing escape or quote: it would need a
      longer text. */
  lemma DecodesIff(r: InterfaceMeasurement)
    ensures ReadAll(ReportText(r)) == Some(ReportValue(r)) <==> Decodable(r)
  {
    var v := ReportValue(r);
    ReportClean(r);
    ReportLength(r);
    CostIff(v);
    if Decodable(r) {
      PrintedReads(v);
    } else if ReadAll(ReportText(r)) == Some(v) {
      ReadTakes(ReportText(r), v);
      assert false;
    }
  }

  // ---------- Member by member ----------

  /** The first member with the key, in an object. */
  function Lookup(v: Value, key: string): Option<Value> {
    if v.Obj? then LookupIn(v.members, key) else None
  }

  function LookupIn(members: seq<Member>, key: string): Option<Value> {
    if members == [] then None
    else if members[0].key == key then Some(members[0].value)
    else LookupIn(members[1..], key)
  }

  lemma LookupThree(a: Member, b: Member, c: Member, key: string)
    ensures Lookup(Obj([a, b, c]), key) ==
              if a.key == key then Some(a.value) else if b.key == key then Some(b.value)
              else if c.key == key then Some(c.value) else None
  {
    assert [a, b, c][1..] == [b, c] && [b, c][1..] == [c] && [c][1..] == [];
    assert LookupIn([c], key) == if c.key == key then Some(c.value) else None;
    assert LookupIn([b, c], key) == if b.key == key then Some(b.value) else LookupIn([c], key);
  }

  /** The text that stands for a kind. */
  predicate NamesKind(v: Option<Value>, k: Kind) {
    && (k == BatteryVoltage ==> v == Some(Text("BATTERY_VOLTAGE")))
    && (k == InternalBatteryVoltage ==> v == Some(Text("INTERNAL_BATTERY_VOLTAGE")))
    && (k == Current ==> v == Some(Text("CURRENT")))
    && (k == Temperature ==> v == Some(Text("TEMPERATURE")))
  }

  predicate NamesStatus(v: Option<Value>, s: Status) {
    && (s == Running ==> v == Some(Text("RUNNING")))
    && (s == Idle ==> v == Some(Text("IDLE")))
    && (s == BatteryMode ==> v == Some(Text("BATTERY_MODE")))
    && (s == Sleeping ==> v == Some(Text("SLEEPING")))
    && (s == Offline ==> v == Some(Text("OFFLINE")))
  }

  /** The object says this of the measurement. */
  predicate Tells(v: Value, m: CurrentMeasurement) {
    && Lookup(v, "name") == Some(Text(m.name))
    && NamesKind(Lookup(v, "type"), m.kind)
    && Lookup(v, "value") == Some(Text(m.printed))
  }

  lemma MeasurementTells(m: CurrentMeasurement)
    ensures Tells(MeasurementValue(m), m)
  {
    var a, b := Member("name", Text(m.name)), Member("type", Text(KindText(m.kind)));
    var c := Member("value", Text(m.printed));
    assert "name"[0] == 'n' && "type"[0] == 't' && "value"[0] == 'v';
    LookupThree(a, b, c, "name");
    LookupThree(a, b, c, "type");
    LookupThree(a, b, c, "value");
  }

  lemma {:induction false} ValueAtIndex(list: seq<CurrentMeasurement>, i: nat)
    requires i < |list|
    ensures MeasurementValues(list)[i] == MeasurementValue(list[i])
  {
    if i > 0 {
      ValueAtIndex(list[1..], i - 1);
    }
  }

  /** A measurement's text, read back, says its name, its type and its printed value under those keys. */
  lemma MeasurementReads(m: CurrentMeasurement)
    requires CleanMeasurement(m)
    ensures ReadAll(Print(MeasurementValue(m))).Some? && Tells(ReadAll(Print(MeasurementValue(m))).value, m)
  {
    ValueClean(m);
    PrintedReads(MeasurementValue(m));
    MeasurementTells(m);
  }

  function KeyText(key: string, text: string): string {
    "\"" + key + "\":\"" + text + "\""
  }

  lemma TextMember(key: string, text: string)
    ensures PrintMember(Member(key, Text(text))) == KeyText(key, text)
  {
    assert "\"" + key + "\":" + ("\"" + text + "\"") == "\"" + key + "\":\"" + text + "\"";
  }

  /** The characters of one measurement's text. */
  lemma MeasurementText(m: CurrentMeasurement)
    ensures Print(MeasurementValue(m)) ==
              "{" + (KeyText("name", m.name) + ("," + (KeyText("type", KindText(m.kind)) + (","
              + (KeyText("value", m.printed) + "}")))))
  {
    var a, b := Member("name", Text(m.name)), Member("type", Text(KindText(m.kind)));
    var c := Member("value", Text(m.printed));
    ThreeMembers(a, b, c);
    TextMember("name", m.name);
    TextMember("type", KindText(m.kind));
    TextMember("value", m.printed);
  }

  /** A report's text, read back, says under their keys the UUID, the status, and of each measurement in
      order its name, type and printed value. */
  lemma ReportReads(r: InterfaceMeasurement)
    requires Decodable(r)
    ensures ReadAll(ReportText(r)).Some?
    ensures var v := ReadAll(ReportText(r)).value;
            && Lookup(v, "interfaceUUID") == Some(Text(r.uuid))
            && NamesStatus(Lookup(v, "status"), r.status)
            && Lookup(v, "measurementList").Some?
            && var list := Lookup(v, "measurementList").value;
               && list.List? && |list.items| == |r.list|
               && forall i :: 0 <= i < |r.list| ==> Tells(list.items[i], r.list[i])
  {
    DecodesIff(r);
    var a, b := Member("interfaceUUID", Text(r.uuid)), Member("measurementList", List(MeasurementValues(r.list)));
    var c := Member("status", Text(StatusText(r.status)));
    assert "interfaceUUID"[0] == 'i' && "measurementList"[0] == 'm' && "status"[0] == 's';
    LookupThree(a, b, c, "interfaceUUID");
    LookupThree(a, b, c, "measurementList");
    LookupThree(a, b, c, "status");
    forall i | 0 <= i < |r.list|
      ensures Tells(MeasurementValues(r.list)[i], r.list[i])
    {
      ValueAtIndex(r.list, i);
      MeasurementTells(r.list[i]);
    }
  }

  lemma {:induction false} ValuesInjective(a: seq<CurrentMeasurement>, b: seq<CurrentMeasurement>)
    requires MeasurementValues(a) == MeasurementValues(b)
    ensures a == b
  {
    if a != [] {
      assert MeasurementValues(a)[0] == MeasurementValues(b)[0];
      assert MeasurementValues(a)[1..] == MeasurementValues(b)[1..];
      ValuesInjective(a[1..], b[1..]);
      MeasurementInjective(a[0], b[0]);
      assert a == [a[0]] + a[1..] && b == [b[0]] + b[1..];
    }
  }

  lemma MeasurementInjective(a: CurrentMeasurement, b: CurrentMeasurement)
    requires MeasurementValue(a) == MeasurementValue(b)
    ensures a == b
  {
    var x, y := MeasurementValue(a).members, MeasurementValue(b).members;
    assert x[0] == y[0] && x[1] == y[1] && x[2] == y[2];
    KindTextsDiffer(a.kind, b.kind);
  }

  lemma KindTextsDiffer(a: Kind, b: Kind)
    requires KindText(a) == KindText(b)
    ensures a == b
  {
    assert KindText(a)[0] == KindText(b)[0] && |KindText(a)| == |KindText(b)|;
  }

  lemma StatusTextsDiffer(a: Status, b: Status)
    requires StatusText(a) == StatusText(b)
    ensures a == b
  {
    assert StatusText(a)[0] == StatusText(b)[0];
  }

  /** Different reports stand for different values, so decoding loses nothing. */
  lemma ReportInjective(a: InterfaceMeasurement, b: InterfaceMeasurement)
    requires ReportValue(a) == ReportValue(b)
    ensures a == b
  {
    var x, y := ReportValue(a).members, ReportValue(b).members;
    assert x[0] == y[0] && x[1] == y[1] && x[2] == y[2];
    ValuesInjective(a.list, b.list);
    StatusTextsDiffer(a.status, b.status);
  }
}
