/** Decimal text: printing an unsigned number, and the C library's `atoi`. */
module Decimal {
  import opened Bytes

  const ZERO: byte := 48
  const NINE: byte := 57

  predicate IsDigit(b: byte) {
    ZERO <= b <= NINE
  }

  predicate IsSpace(b: byte) {
    b == 32 || 9 <= b <= 13
  }

  function Print(n: nat): seq<byte> {
    if n < 10 then [ZERO + n] else Print(n / 10) + [ZERO + n % 10]
  }

  /** The value of the digits that `s` starts with, behind digits already worth `acc`. */
  function DigitsValue(s: seq<byte>, acc: nat := 0): nat {
    if s == [] || !IsDigit(s[0]) then acc else DigitsValue(s[1..], acc * 10 + (s[0] - ZERO))
  }

  /** White space, a sign, then digits; what follows them is ignored. */
  function Atoi(s: seq<byte>): int {
    if s == [] then 0
    else if IsSpace(s[0]) then Atoi(s[1..])
    else if s[0] == 45 then 0 - (DigitsValue(s[1..]) as int)
    else if s[0] == 43 then DigitsValue(s[1..])
    else DigitsValue(s)
  }

  lemma {:induction false} ValueOfConcat(s: seq<byte>, t: seq<byte>, acc: nat)
    requires forall b | b in s :: IsDigit(b)
    ensures DigitsValue(s + t, acc) == DigitsValue(t, DigitsValue(s, acc))
  {
    if s == [] {
      assert s + t == t;
    } else {
      assert s[0] in s && (s + t)[1..] == s[1..] + t;
      ValueOfConcat(s[1..], t, acc * 10 + (s[0] - ZERO));
    }
  }

  lemma {:induction false} PrintIsDigits(n: nat)
    ensures Print(n) != [] && forall b | b in Print(n) :: IsDigit(b)
  {
    if n >= 10 {
      PrintIsDigits(n / 10);
    }
  }

  lemma {:induction false} PrintValue(n: nat)
    ensures DigitsValue(Print(n)) == n
  {
    if n >= 10 {
      PrintIsDigits(n / 10);
      PrintValue(n / 10);
      ValueOfConcat(Print(n / 10), [ZERO + n % 10], 0);
      assert DigitsValue([ZERO + n % 10], n / 10) == n / 10 * 10 + n % 10;
    }
  }

  /** A printed number reads back, whatever non-digit follows it. */
  lemma AtoiOfPrint(n: nat, t: seq<byte>)
    requires t != [] ==> !IsDigit(t[0])
    ensures Atoi(Print(n) + t) == n
  {
    PrintIsDigits(n);
    assert (Print(n) + t)[0] == Print(n)[0] && Print(n)[0] in Print(n);
    ValueOfConcat(Print(n), t, 0);
    PrintValue(n);
  }

  function Power10(k: nat): nat {
    if k == 0 then 1 else 10 * Power10(k - 1)
  }

  lemma {:induction false} PrintLength(n: nat, k: nat)
    requires k > 0 && n < Power10(k)
    ensures |Print(n)| <= k
    decreases k
  {
    if n >= 10 {
      assert n / 10 < Power10(k - 1);
      PrintLength(n / 10, k - 1);
    }
  }

  lemma PortLength(n: u32)
    ensures |Print(n)| <= 10
  {
    assert Power10(4) == 10_000;
    assert Power10(7) == 10_000_000;
    assert Power10(10) == 10_000_000_000;
    PrintLength(n, 10);
  }
}
