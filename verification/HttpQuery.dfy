/** The configuration page's query string: '&'-separated segments, each split at its first '='. */
module HttpQuery {
  /** The first `c` in `s` at `i` or behind it, or the length of `s`. */
  function Seek(s: string, c: char, i: nat): (k: nat)
    requires i <= |s|
    ensures i <= k <= |s|
    ensures k < |s| ==> s[k] == c
    ensures forall j :: i <= j < k ==> s[j] != c
    decreases |s| - i
  {
    if i == |s| || s[i] == c then i else Seek(s, c, i + 1)
  }

  // ---------- Reference ----------

  /** The segments between the '&'s. */
  function Segments(q: string): (segments: seq<string>)
    ensures segments != []
    decreases |q|
  {
    var k := Seek(q, '&', 0);
    if k == |q| then [q] else [q[..k]] + Segments(q[k + 1..])
  }

  /** One segment's entry put into the map; a segment without '=' adds nothing. */
  function Enter(data: map<string, string>, segment: string): map<string, string> {
    var e := Seek(segment, '=', 0);
    if e == |segment| then data else data[segment[..e] := segment[e + 1..]]
  }

  /** All segments from left to right; a later entry replaces an earlier one of the same key. */
  function EnterAll(data: map<string, string>, segments: seq<string>): map<string, string>
    decreases |segments|
  {
    if segments == [] then data else EnterAll(Enter(data, segments[0]), segments[1..])
  }

  function Parse(q: string): map<string, string> {
    EnterAll(map[], Segments(q))
  }

  // ---------- The parser ----------

  /** What is left to enter from `start` on; at the very end there is nothing. */
  function RestFrom(q: string, start: nat, data: map<string, string>): map<string, string> {
    if start < |q| then EnterAll(data, Segments(q[start..])) else data
  }

  lemma {:induction false} SeekUnique(s: string, c: char, i: nat, k: nat)
    requires i <= k <= |s| && (k < |s| ==> s[k] == c)
    requires forall j :: i <= j < k ==> s[j] != c
    ensures Seek(s, c, i) == k
    decreases k - i
  {
    if i < k {
      SeekUnique(s, c, i + 1, k);
    }
  }

  /** Searching a part of the string, from its start, finds what lies in that part. */
  lemma SeekInPart(q: string, c: char, start: nat, end: nat)
    requires start <= end <= |q|
    ensures var k := Seek(q, c, start);
            Seek(q[start..end], c, 0) == if k < end then k - start else end - start
  {
    var k := Seek(q, c, start);
    SeekUnique(q[start..end], c, 0, if k < end then k - start else end - start);
  }

  lemma EnterFirst(data: map<string, string>, first: string, rest: seq<string>)
    ensures EnterAll(data, [first] + rest) == EnterAll(Enter(data, first), rest)
  {
    assert ([first] + rest)[1..] == rest;
  }

  lemma EnterOne(data: map<string, string>, segment: string)
    ensures EnterAll(data, [segment]) == Enter(data, segment)
  {
    EnterFirst(data, segment, []);
    assert [segment] + [] == [segment];
  }

  /** Entering the rest is the same whether or not the rest is empty. */
  lemma RestIsSegments(q: string, start: nat, data: map<string, string>)
    requires start <= |q|
    ensures RestFrom(q, start, data) == EnterAll(data, Segments(q[start..]))
  {
    if start == |q| {
      assert Segments(q[start..]) == [""];
      EnterOne(data, "");
    }
  }

  lemma MoreSegments(q: string, k: nat)
    requires k < |q| && q[k] == '&' && forall j :: 0 <= j < k ==> q[j] != '&'
    ensures Segments(q) == [q[..k]] + Segments(q[k + 1..])
  {
    SeekUnique(q, '&', 0, k);
  }

  lemma LastSegment(q: string)
    requires forall j :: 0 <= j < |q| ==> q[j] != '&'
    ensures Segments(q) == [q]
  {
    SeekUnique(q, '&', 0, |q|);
  }

  lemma SegmentsAt(q: string, start: nat)
    requires start < |q|
    ensures var end := Seek(q, '&', start);
            Segments(q[start..]) ==
              if end < |q| then [q[start..end]] + Segments(q[end + 1..]) else [q[start..end]]
  {
    var end, rest := Seek(q, '&', start), q[start..];
    if end < |q| {
      MoreSegments(rest, end - start);
      assert rest[..end - start] == q[start..end] && rest[end - start + 1..] == q[end + 1..];
    } else {
      LastSegment(rest);
      assert rest == q[start..end];
    }
  }

  lemma SegmentEntered(data: map<string, string>, all: seq<string>, first: string, rest: seq<string>)
    requires all == [first] + rest
    ensures EnterAll(data, all) == EnterAll(Enter(data, first), rest)
  {
    EnterFirst(data, first, rest);
  }

  /** One turn of the loop enters one segment. */
  lemma OneSegment(q: string, start: nat, end: nat, data: map<string, string>)
    requires start < |q| && end == Seek(q, '&', start)
    ensures RestFrom(q, start, data) == RestFrom(q, end + 1, Enter(data, q[start..end]))
  {
    var segment := q[start..end];
    SegmentsAt(q, start);
    if end < |q| {
      SegmentEntered(data, Segments(q[start..]), segment, Segments(q[end + 1..]));
      RestIsSegments(q, end + 1, Enter(data, segment));
    } else {
      EnterOne(data, segment);
    }
  }

  /** What the loop body enters is the segment's entry. */
  lemma EnterKey(q: string, start: nat, e: nat, end: nat, data: map<string, string>)
    requires start <= e < end <= |q| && e == Seek(q, '=', start)
    ensures Enter(data, q[start..end]) == data[q[start..e] := q[e + 1..end]]
  {
    var segment := q[start..end];
    SeekInPart(q, '=', start, end);
    assert segment[..e - start] == q[start..e] && segment[e - start + 1..] == q[e + 1..end];
  }

  lemma EnterNoKey(q: string, start: nat, end: nat, data: map<string, string>)
    requires start <= end <= |q| && end <= Seek(q, '=', start)
    ensures Enter(data, q[start..end]) == data
  {
    SeekInPart(q, '=', start, end);
  }

  method EnterNext(query: string, startPos: nat, data: map<string, string>)
    returns (next: map<string, string>, end: nat)
    requires startPos < |query|
    ensures end == Seek(query, '&', startPos) && next == Enter(data, query[startPos..end])
  {
    var delimiterPos := Seek(query, '&', startPos);
    var equalsPos := Seek(query, '=', startPos);
    next := data;
    if equalsPos < delimiterPos {
      var key := query[startPos..equalsPos];
      var value := query[equalsPos + 1..delimiterPos];
      next := data[key := value];
      EnterKey(query, startPos, equalsPos, delimiterPos, data);
    } else {
      EnterNoKey(query, startPos, delimiterPos, data);
    }
    end := delimiterPos;
  }

  method ParseGetQuery(query: string) returns (data: map<string, string>)
    ensures data == Parse(query)
  {
    data := map[];
    var startPos := 0;
    RestIsSegments(query, 0, data);
    assert query[0..] == query;
    while startPos < |query|
      invariant RestFrom(query, startPos, data) == Parse(query)
      decreases |query| - startPos
    {
      var next, delimiterPos := EnterNext(query, startPos, data);
      OneSegment(query, startPos, delimiterPos, data);
      data := next;
      startPos := delimiterPos + 1;
    }
  }

  // ---------- Joining and parsing ----------

  datatype Pair = Pair(key: string, value: string)

  function Text(p: Pair): string {
    p.key + "=" + p.value
  }

  function JoinPairs(pairs: seq<Pair>): string
    requires pairs != []
  {
    if |pairs| == 1 then Text(pairs[0]) else Text(pairs[0]) + "&" + JoinPairs(pairs[1..])
  }

  /** The map that the pairs stand for, the last one of each key winning. */
  function LastWins(data: map<string, string>, pairs: seq<Pair>): map<string, string>
    decreases |pairs|
  {
    if pairs == [] then data else LastWins(data[pairs[0].key := pairs[0].value], pairs[1..])
  }

  predicate Plain(p: Pair) {
    '&' !in p.key && '=' !in p.key && '&' !in p.value
  }

  lemma SeekBehind(a: string, c: char, b: string)
    requires c !in a
    ensures Seek(a + [c] + b, c, 0) == |a|
    ensures Seek(a, c, 0) == |a|
  {
    SeekUnique(a + [c] + b, c, 0, |a|);
    SeekUnique(a, c, 0, |a|);
  }

  lemma EnterPair(data: map<string, string>, p: Pair)
    requires Plain(p)
    ensures Enter(data, Text(p)) == data[p.key := p.value]
  {
    SeekBehind(p.key, '=', p.value);
    assert Text(p) == p.key + ['='] + p.value;
    assert Text(p)[..|p.key|] == p.key && Text(p)[|p.key| + 1..] == p.value;
  }

  lemma {:induction false} ParseOfJoined(data: map<string, string>, pairs: seq<Pair>)
    requires pairs != [] && forall p | p in pairs :: Plain(p)
    ensures EnterAll(data, Segments(JoinPairs(pairs))) == LastWins(data, pairs)
    decreases |pairs|
  {
    var p, text := pairs[0], Text(pairs[0]);
    assert Plain(p) && '&' !in text;
    EnterPair(data, p);
    if |pairs| == 1 {
      SeekBehind(text, '&', "");
      EnterOne(data, text);
      assert LastWins(data[p.key := p.value], pairs[1..]) == data[p.key := p.value];
    } else {
      var rest := JoinPairs(pairs[1..]);
      var q := text + ['&'] + rest;
      SeekBehind(text, '&', rest);
      assert JoinPairs(pairs) == q && q[..|text|] == text && q[|text| + 1..] == rest;
      EnterFirst(data, text, Segments(rest));
      ParseOfJoined(Enter(data, text), pairs[1..]);
    }
  }

  /** Parsing undoes joining, for keys without delimiters and values without '&'. */
  lemma ParseUndoesJoin(pairs: seq<Pair>)
    requires pairs != [] && forall p | p in pairs :: Plain(p)
    ensures Parse(JoinPairs(pairs)) == LastWins(map[], pairs)
  {
    ParseOfJoined(map[], pairs);
  }

  lemma {:induction false} SegmentsAreFree(q: string)
    ensures forall segment | segment in Segments(q) :: '&' !in segment
    decreases |q|
  {
    var k := Seek(q, '&', 0);
    if k < |q| {
      SegmentsAreFree(q[k + 1..]);
    }
  }

  ghost predicate AllPlain(data: map<string, string>) {
    forall k | k in data :: Plain(Pair(k, data[k]))
  }

  lemma EnterIsPlain(data: map<string, string>, segment: string)
    requires AllPlain(data) && '&' !in segment
    ensures AllPlain(Enter(data, segment))
  {
    var e := Seek(segment, '=', 0);
    if e < |segment| {
      assert Plain(Pair(segment[..e], segment[e + 1..]));
    }
  }

  lemma {:induction false} EnteredIsPlain(data: map<string, string>, segments: seq<string>)
    requires AllPlain(data) && forall segment | segment in segments :: '&' !in segment
    ensures AllPlain(EnterAll(data, segments))
    decreases |segments|
  {
    if segments != [] {
      assert segments[0] in segments;
      EnterIsPlain(data, segments[0]);
      EnteredIsPlain(Enter(data, segments[0]), segments[1..]);
    }
  }

  /** Exactly the plain pairs survive being sent as a query of their own. */
  lemma PairSurvivesIff(p: Pair)
    ensures Parse(Text(p)) == map[p.key := p.value] <==> Plain(p)
  {
    var sent := map[p.key := p.value];
    if Plain(p) {
      ParseUndoesJoin([p]);
      assert LastWins(sent, [p][1..]) == sent;
    } else {
      SegmentsAreFree(Text(p));
      EnteredIsPlain(map[], Segments(Text(p)));
      assert p.key in sent && !AllPlain(sent);
    }
  }
}
