/** Replacing every occurrence of a substring, in place and from left to right. */
module ReplaceAll {
  import opened Bytes

  predicate OccursAt(s: string, from: string, i: nat) {
    i + |from| <= |s| && s[i..i + |from|] == from
  }

  /** The first occurrence of `from` in `s` at `i` or behind it. */
  function Find(s: string, from: string, i: nat := 0): (r: Option<nat>)
    ensures r.Some? ==> i <= r.value && OccursAt(s, from, r.value)
    ensures forall j: nat :: i <= j && (r.Some? ==> j < r.value) ==> !OccursAt(s, from, j)
    decreases |s| - i
  {
    if i + |from| > |s| then None
    else if OccursAt(s, from, i) then Some(i)
    else Find(s, from, i + 1)
  }

  // ---------- Splitting and joining ----------

  /** The pieces between the leftmost non-overlapping occurrences of `from`. */
  function Split(s: string, from: string): (pieces: seq<string>)
    requires from != ""
    ensures pieces != []
    decreases |s|
  {
    match Find(s, from)
    case None => [s]
    case Some(j) => [s[..j]] + Split(s[j + |from|..], from)
  }

  function Join(pieces: seq<string>, sep: string): string
    requires pieces != []
  {
    if |pieces| == 1 then pieces[0] else pieces[0] + sep + Join(pieces[1..], sep)
  }

  /** Between the pieces, no `from` begins earlier than where they are joined, and the last piece
      holds none. */
  predicate Leftmost(pieces: seq<string>, from: string)
    requires pieces != []
  {
    if |pieces| == 1 then Find(pieces[0], from) == None
    else Find(pieces[0] + from, from) == Some(|pieces[0]|) && Leftmost(pieces[1..], from)
  }

  lemma FindIsFirst(s: string, from: string, i: nat, j: nat)
    requires i <= j && OccursAt(s, from, j)
    requires forall k: nat :: i <= k < j ==> !OccursAt(s, from, k)
    ensures Find(s, from, i) == Some(j)
  {
  }

  /** An occurrence inside the first part of a string is found whatever follows. */
  lemma FindInFirstPart(a: string, b: string, from: string)
    requires Find(a, from).Some?
    ensures Find(a + b, from) == Find(a, from)
  {
    var j := Find(a, from).value;
    assert (a + b)[j..j + |from|] == a[j..j + |from|];
    forall k: nat | k < j
      ensures !OccursAt(a + b, from, k)
    {
      assert (a + b)[k..k + |from|] == a[k..k + |from|];
      assert !OccursAt(a, from, k);
    }
    FindIsFirst(a + b, from, 0, j);
  }

  lemma JoinCons(head: string, tail: seq<string>, sep: string)
    requires tail != []
    ensures Join([head] + tail, sep) == head + sep + Join(tail, sep)
  {
    assert ([head] + tail)[1..] == tail;
  }

  lemma LeftmostCons(head: string, tail: seq<string>, from: string)
    requires tail != []
    ensures Leftmost([head] + tail, from) <==> Find(head + from, from) == Some(|head|) && Leftmost(tail, from)
  {
    assert ([head] + tail)[1..] == tail;
  }

  lemma FirstAtEnd(s: string, from: string, j: nat)
    requires from != "" && Find(s, from) == Some(j)
    ensures Find(s[..j] + from, from) == Some(j)
  {
    var t := s[..j] + from;
    assert t == s[..j + |from|];
    forall k: nat | k < j
      ensures !OccursAt(t, from, k)
    {
      if k + |from| <= |t| {
        assert t[k..k + |from|] == s[k..k + |from|];
      }
      assert !OccursAt(s, from, k);
    }
    assert t[j..j + |from|] == from;
    FindIsFirst(t, from, 0, j);
  }

  lemma CutAt(s: string, from: string, j: nat)
    requires OccursAt(s, from, j)
    ensures s[..j] + from + s[j + |from|..] == s
  {
    assert s[..j + |from|] == s[..j] + from;
  }

  /** Splitting loses nothing, and splits only at leftmost occurrences. */
  lemma {:induction false} SplitThenJoin(s: string, from: string)
    requires from != ""
    ensures Join(Split(s, from), from) == s && Leftmost(Split(s, from), from)
    decreases |s|
  {
    var f := Find(s, from);
    if f.Some? {
      var j := f.value;
      var head, rest := s[..j], s[j + |from|..];
      SplitThenJoin(rest, from);
      CutAt(s, from, j);
      FirstAtEnd(s, from, j);
      JoinCons(head, Split(rest, from), from);
      LeftmostCons(head, Split(rest, from), from);
    }
  }

  /** Conversely, pieces joined so that no occurrence begins early are found again by splitting: the
      decomposition into leftmost occurrences is unique. */
  lemma {:induction false} JoinThenSplit(pieces: seq<string>, from: string)
    requires from != "" && pieces != [] && Leftmost(pieces, from)
    ensures Split(Join(pieces, from), from) == pieces
  {
    if |pieces| > 1 {
      var head, tail := pieces[0], pieces[1..];
      assert pieces == [head] + tail;
      JoinThenSplit(tail, from);
      FindInFirstPart(head + from, Join(tail, from), from);
      SplitAt(head, Join(tail, from), from);
    }
  }

  lemma SplitAt(head: string, rest: string, from: string)
    requires from != "" && Find(head + from + rest, from) == Some(|head|)
    ensures Split(head + from + rest, from) == [head] + Split(rest, from)
  {
    var s := head + from + rest;
    assert s[..|head|] == head && s[|head| + |from|..] == rest;
  }

  // ---------- Replacing ----------

  /** All leftmost non-overlapping occurrences replaced. */
  function Replaced(s: string, from: string, to: string): string {
    if from == "" then s else Join(Split(s, from), to)
  }

  /** Replacing puts the new text exactly where the leftmost occurrences were. */
  lemma ReplacedPieces(pieces: seq<string>, from: string, to: string)
    requires from != "" && pieces != [] && Leftmost(pieces, from)
    ensures Replaced(Join(pieces, from), from, to) == Join(pieces, to)
  {
    JoinThenSplit(pieces, from);
  }

  /** The number of occurrences replaced. */
  function Occurrences(s: string, from: string): nat
    requires from != ""
  {
    |Split(s, from)| - 1
  }

  lemma {:induction false} JoinLength(pieces: seq<string>, a: string, b: string)
    requires pieces != []
    ensures |Join(pieces, b)| == |Join(pieces, a)| + (|pieces| - 1) * (|b| - |a|)
  {
    if |pieces| > 1 {
      JoinLength(pieces[1..], a, b);
      assert (|pieces| - 1) * (|b| - |a|) == (|pieces| - 2) * (|b| - |a|) + (|b| - |a|);
    }
  }

  lemma ReplacedLength(s: string, from: string, to: string)
    requires from != ""
    ensures |Replaced(s, from, to)| == |s| + Occurrences(s, from) * (|to| - |from|)
  {
    SplitThenJoin(s, from);
    JoinLength(Split(s, from), from, to);
  }

  lemma ReplacedAt(s: string, from: string, to: string, j: nat)
    requires from != "" && Find(s, from) == Some(j)
    ensures Replaced(s, from, to) == s[..j] + to + Replaced(s[j + |from|..], from, to)
  {
    JoinCons(s[..j], Split(s[j + |from|..], from), to);
  }

  /** Searching from `i` is searching the rest. */
  lemma FindFrom(s: string, from: string, i: nat)
    requires i <= |s|
    ensures Find(s, from, i) ==
              match Find(s[i..], from)
              case None => None
              case Some(j) => Some(i + j)
  {
    var rest := s[i..];
    forall k: nat
      ensures OccursAt(rest, from, k) <==> OccursAt(s, from, i + k)
    {
      if k + |from| <= |rest| {
        assert rest[k..k + |from|] == s[i + k..i + k + |from|];
      }
    }
    var f := Find(rest, from);
    var g := Find(s, from, i);
    if g.Some? {
      assert OccursAt(rest, from, g.value - i);
    }
    if f.Some? {
      assert OccursAt(s, from, i + f.value);
      assert g.Some? && g.value <= i + f.value;
      assert !(g.value - i < f.value);
    }
  }

  /** `n` characters at `at` replaced by `to`. */
  function Splice(str: string, at: nat, n: nat, to: string): string
    requires at + n <= |str|
  {
    str[..at] + to + str[at + n..]
  }

  /** What the loop is heading for, with the part before `start` done. */
  function Goal(str: string, start: nat, from: string, to: string): string
    requires start <= |str|
  {
    str[..start] + Replaced(str[start..], from, to)
  }

  lemma GoalOf(str: string, start: nat, head: string, tail: string, from: string, to: string)
    requires start <= |str| && str[..start] == head && str[start..] == tail
    ensures Goal(str, start, from, to) == head + Replaced(tail, from, to)
  {
  }

  /** One replacement, at the next occurrence from `start` on, leaves the final result the same and the
      unprocessed rest shorter by at least `from`. */
  lemma ReplaceNext(str: string, from: string, to: string, start: nat, at: nat)
    requires from != "" && start <= |str| && Find(str, from, start) == Some(at)
    ensures var next := Splice(str, at, |from|, to);
            && at + |to| <= |next|
            && Goal(str, start, from, to) == Goal(next, at + |to|, from, to)
            && |next| - (at + |to|) <= |str| - start - |from|
  {
    FindFrom(str, from, start);
    SameGoal(str, from, to, start, at);
  }

  lemma SameGoal(str: string, from: string, to: string, start: nat, at: nat)
    requires from != "" && start <= at && at + |from| <= |str|
    requires Find(str[start..], from) == Some(at - start)
    ensures at + |to| <= |Splice(str, at, |from|, to)|
    ensures Goal(str, start, from, to) == Goal(Splice(str, at, |from|, to), at + |to|, from, to)
  {
    var head, rest, j := str[..start], str[start..], at - start;
    var piece, tail := rest[..j], rest[j + |from|..];
    Spliced(str, start, at, |from|, to);
    GoalOf(str, start, head, rest, from, to);
    GoalOf(Splice(str, at, |from|, to), at + |to|, head + piece + to, tail, from, to);
    ReplacedAt(rest, from, to, j);
    Associate(head, piece, to, Replaced(tail, from, to));
  }

  lemma Spliced(str: string, start: nat, at: nat, n: nat, to: string)
    requires start <= at && at + n <= |str|
    ensures var next := Splice(str, at, n, to);
            && next[..at + |to|] == str[..start] + str[start..][..at - start] + to
            && next[at + |to|..] == str[start..][at - start + n..]
  {
    assert str[..at] == str[..start] + str[start..][..at - start];
    assert str[at + n..] == str[start..][at - start + n..];
  }

  lemma Associate(a: string, b: string, c: string, d: string)
    ensures a + (b + c + d) == a + b + c + d
  {
  }

  lemma ReplaceDone(str: string, from: string, to: string, start: nat)
    requires from != "" && start <= |str| && Find(str, from, start) == None
    ensures Goal(str, start, from, to) == str
  {
    FindFrom(str, from, start);
    assert str[..start] + str[start..] == str;
  }

  lemma NothingDone(str: string, from: string, to: string)
    ensures Goal(str, 0, from, to) == Replaced(str, from, to)
  {
    assert str[0..] == str;
  }

  method Replace(original: string, from: string, to: string) returns (str: string)
    ensures str == Replaced(original, from, to)
  {
    str := original;
    if from == "" {
      return;
    }
    var startPos: nat := 0;
    NothingDone(str, from, to);
    while true
      invariant startPos <= |str|
      invariant Goal(str, startPos, from, to) == Replaced(original, from, to)
      decreases |str| - startPos
    {
      var found := Find(str, from, startPos);
      if found == None {
        ReplaceDone(str, from, to, startPos);
        break;
      }
      ReplaceNext(str, from, to, startPos, found.value);
      str := Splice(str, found.value, |from|, to);
      startPos := found.value + |to|;
    }
  }
}
