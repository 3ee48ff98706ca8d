/** The ring oscillator's delay codes: eight octal digits, one in each nibble, enumerated by a bit
    trick. */
module Rosc {

  function NextCode(code: bv32): bv32 {
    ((code | 0x0888_8888) + 1) & 0xf777_7777
  }

  /** Every nibble is an octal digit. */
  predicate Valid(code: bv32) {
    code & 0x8888_8888 == 0
  }

  const LAST: bv32 := 0x7777_7777

  function ToNat(d: bv32): (n: nat)
    ensures n < 8
  {
    if d == 0 then 0 else if d == 1 then 1 else if d == 2 then 2 else if d == 3 then 3
    else if d == 4 then 4 else if d == 5 then 5 else if d == 6 then 6 else 7
  }

  function Power8(n: nat): nat {
    if n == 0 then 1 else 8 * Power8(n - 1)
  }

  /** The `n` low nibbles, the lowest first. */
  function Digits(code: bv32, n: nat): (ds: seq<nat>)
    ensures |ds| == n && forall i :: 0 <= i < n ==> ds[i] < 8
  {
    if n == 0 then [] else [ToNat(code & 0xF)] + Digits(code >> 4, n - 1)
  }

  /** The number written with these octal digits. */
  function Octal(ds: seq<nat>): nat {
    if ds == [] then 0 else ds[0] + 8 * Octal(ds[1..])
  }

  const CODES := 0x100_0000

  function Value(code: bv32): (v: nat)
    ensures v < CODES
  {
    OctalBound(Digits(code, 8));
    CodesIsPower();
    Octal(Digits(code, 8))
  }

  lemma CodesIsPower()
    ensures Power8(8) == CODES
  {
    assert Power8(4) == 4096;
  }

  // ---------- Octal digits ----------

  predicate AreDigits(ds: seq<nat>) {
    forall i :: 0 <= i < |ds| ==> ds[i] < 8
  }

  /** `es` is `ds` with one added, carried as far as needed, without overflow. */
  predicate Carried(ds: seq<nat>, es: seq<nat>) {
    && |ds| == |es| > 0
    && if ds[0] == 7 then es[0] == 0 && Carried(ds[1..], es[1..]) else es[0] == ds[0] + 1 && es[1..] == ds[1..]
  }

  lemma {:induction false} CarriedAddsOne(ds: seq<nat>, es: seq<nat>)
    requires Carried(ds, es)
    ensures Octal(es) == Octal(ds) + 1
  {
    if ds[0] == 7 {
      CarriedAddsOne(ds[1..], es[1..]);
    }
  }

  lemma {:induction false} OctalBound(ds: seq<nat>)
    requires AreDigits(ds)
    ensures Octal(ds) < Power8(|ds|)
  {
    if ds != [] {
      OctalBound(ds[1..]);
    }
  }

  lemma {:induction false} AllSevens(ds: seq<nat>)
    requires forall i :: 0 <= i < |ds| ==> ds[i] == 7
    ensures Octal(ds) == Power8(|ds|) - 1
  {
    if ds != [] {
      AllSevens(ds[1..]);
    }
  }

  lemma {:induction false} OctalInjective(ds: seq<nat>, es: seq<nat>)
    requires |ds| == |es| && AreDigits(ds) && AreDigits(es) && Octal(ds) == Octal(es)
    ensures ds == es
  {
    if ds != [] {
      OctalInjective(ds[1..], es[1..]);
      assert ds == [ds[0]] + ds[1..] && es == [es[0]] + es[1..];
    }
  }

  // ---------- The bit trick ----------

  lemma StepKeepsValid(code: bv32)
    requires Valid(code) && code != LAST
    ensures Valid(NextCode(code)) && NextCode(code) > code
  {
  }

  lemma LowDigit(code: bv32)
    requires Valid(code)
    ensures code & 0xF <= 7 && Valid(code >> 4) && code >> 4 != LAST
  {
  }

  /** Without a carry, one is added to the lowest digit. */
  lemma StepLow(code: bv32)
    requires Valid(code) && code & 0xF != 7
    ensures NextCode(code) & 0xF == (code & 0xF) + 1 && NextCode(code) >> 4 == code >> 4
  {
  }

  /** With a carry, the lowest digit becomes zero and the digits above it step. */
  lemma StepCarry(code: bv32)
    requires Valid(code) && code != LAST && code & 0xF == 7
    ensures NextCode(code) & 0xF == 0 && NextCode(code) >> 4 == NextCode(code >> 4)
  {
  }

  /** Some of the `n` low digits is not 7. */
  predicate HasRoom(code: bv32, n: nat) {
    n > 0 && (code & 0xF != 7 || HasRoom(code >> 4, n - 1))
  }

  lemma {:induction false} NextIsCarried(code: bv32, n: nat)
    requires Valid(code) && code != LAST && HasRoom(code, n)
    ensures Carried(Digits(code, n), Digits(NextCode(code), n))
  {
    if code & 0xF == 7 {
      LowDigit(code);
      NextIsCarried(code >> 4, n - 1);
      CarryDigits(code, NextCode(code), n);
    } else {
      AddDigits(code, NextCode(code), n);
    }
  }

  lemma CarryDigits(code: bv32, next: bv32, n: nat)
    requires n > 0 && Valid(code) && code != LAST && code & 0xF == 7 && next == NextCode(code)
    requires Carried(Digits(code >> 4, n - 1), Digits(NextCode(code >> 4), n - 1))
    ensures Carried(Digits(code, n), Digits(next, n))
  {
    StepCarry(code);
    DigitsBelow(code, n);
    DigitsBelow(next, n);
  }

  lemma AddDigits(code: bv32, next: bv32, n: nat)
    requires n > 0 && Valid(code) && code & 0xF != 7 && next == NextCode(code)
    ensures Carried(Digits(code, n), Digits(next, n))
  {
    LowDigit(code);
    StepLow(code);
    NextDigit(code & 0xF);
    DigitsBelow(code, n);
    DigitsBelow(next, n);
  }

  lemma DigitsBelow(code: bv32, n: nat)
    requires n > 0
    ensures Digits(code, n)[0] == ToNat(code & 0xF) && Digits(code, n)[1..] == Digits(code >> 4, n - 1)
  {
  }

  lemma NextDigit(d: bv32)
    requires d < 7
    ensures ToNat(d) < 7 && ToNat(d + 1) == ToNat(d) + 1
  {
  }

  lemma {:induction false} NoRoomIsSevens(code: bv32, n: nat)
    requires Valid(code) && !HasRoom(code, n)
    ensures forall i :: 0 <= i < n ==> Digits(code, n)[i] == 7
  {
    if n > 0 {
      LowDigit(code);
      DigitsBelow(code, n);
      NoRoomIsSevens(code >> 4, n - 1);
      assert forall i :: 0 < i < n ==> Digits(code, n)[i] == Digits(code, n)[1..][i - 1];
    }
  }

  lemma SameDigits(a: bv32, b: bv32)
    requires a & 0xF == b & 0xF && a >> 4 == b >> 4
    ensures a == b
  {
  }

  lemma SameDigit(d: bv32, e: bv32)
    requires d <= 7 && e <= 7 && ToNat(d) == ToNat(e)
    ensures d == e
  {
  }

  /** A code without digits from the `n`-th on. */
  predicate Short(code: bv32, n: nat) {
    if n == 0 then code == 0 else Short(code >> 4, n - 1)
  }

  /** The same, as a bound. */
  predicate Bounded(code: bv32, n: nat) {
    match n
    case 0 => code == 0
    case 1 => code <= 0xF
    case 2 => code <= 0xFF
    case 3 => code <= 0xFFF
    case 4 => code <= 0xFFFF
    case 5 => code <= 0xF_FFFF
    case 6 => code <= 0xFF_FFFF
    case 7 => code <= 0xFFF_FFFF
    case _ => true
  }

  lemma BoundedAbove(code: bv32, n: nat)
    requires 0 < n <= 8 && Bounded(code, n)
    ensures Bounded(code >> 4, n - 1)
  {
  }

  lemma {:induction false} BoundedIsShort(code: bv32, n: nat)
    requires n <= 8 && Bounded(code, n)
    ensures Short(code, n)
  {
    if n > 0 {
      BoundedAbove(code, n);
      BoundedIsShort(code >> 4, n - 1);
    }
  }

  lemma {:induction false} DigitsDetermine(a: bv32, b: bv32, n: nat)
    requires Valid(a) && Valid(b) && Short(a, n) && Short(b, n) && Digits(a, n) == Digits(b, n)
    ensures a == b
  {
    if n > 0 {
      DigitsBelow(a, n);
      DigitsBelow(b, n);
      LowDigit(a);
      LowDigit(b);
      SameDigit(a & 0xF, b & 0xF);
      DigitsDetermine(a >> 4, b >> 4, n - 1);
      SameDigits(a, b);
    }
  }

  lemma LastValue()
    ensures Value(LAST) == CODES - 1
  {
    CodesIsPower();
    assert !HasRoom(0x7, 1) && !HasRoom(0x77, 2) && !HasRoom(0x777, 3) && !HasRoom(0x7777, 4);
    assert !HasRoom(0x7_7777, 5) && !HasRoom(0x77_7777, 6) && !HasRoom(0x777_7777, 7);
    NoRoomIsSevens(LAST, 8);
    AllSevens(Digits(LAST, 8));
  }

  /** A step gives a larger valid code, the one whose octal value is one more; the last code, of value
      8^8 - 1, steps to the mark above all codes. */
  lemma NextCodeIsSuccessor(code: bv32)
    requires Valid(code)
    ensures NextCode(LAST) == 0x8000_0000 && Value(LAST) == CODES - 1
    ensures code != LAST ==> Valid(NextCode(code)) && NextCode(code) > code && Value(NextCode(code)) == Value(code) + 1
  {
    LastValue();
    if code != LAST {
      StepKeepsValid(code);
      if !HasRoom(code, 8) {
        CodesIsPower();
        NoRoomIsSevens(code, 8);
        AllSevens(Digits(code, 8));
        ValueInjective(code, LAST);
      }
      NextIsCarried(code, 8);
      CarriedAddsOne(Digits(code, 8), Digits(NextCode(code), 8));
    }
  }

  lemma ValueInjective(a: bv32, b: bv32)
    requires Valid(a) && Valid(b) && Value(a) == Value(b)
    ensures a == b
  {
    OctalInjective(Digits(a, 8), Digits(b, 8));
    BoundedIsShort(a, 8);
    BoundedIsShort(b, 8);
    DigitsDetermine(a, b, 8);
  }

  // ---------- The enumeration ----------

  /** The code reached after `n` steps from 0. */
  function Nth(n: nat): bv32 {
    if n == 0 then 0 else NextCode(Nth(n - 1))
  }

  lemma NextOfValue(code: bv32, v: nat)
    requires Valid(code) && Value(code) == v && v + 1 < CODES
    ensures Valid(NextCode(code)) && Value(NextCode(code)) == v + 1
  {
    NextCodeIsSuccessor(code);
  }

  lemma {:induction false} NthValue(n: nat)
    requires n < CODES
    ensures Valid(Nth(n)) && Value(Nth(n)) == n
  {
    if n == 0 {
      ZeroValue();
    } else {
      NthValue(n - 1);
      NextOfValue(Nth(n - 1), n - 1);
    }
  }

  lemma ZeroValue()
    ensures Valid(0) && Value(0) == 0
  {
    ZeroDigits(8);
    AllZeros(Digits(0, 8));
  }

  lemma {:induction false} ZeroDigits(n: nat)
    ensures forall i :: 0 <= i < n ==> Digits(0, n)[i] == 0
  {
    if n > 0 {
      DigitsBelow(0, n);
      ZeroDigits(n - 1);
      assert forall i :: 0 < i < n ==> Digits(0, n)[i] == Digits(0, n)[1..][i - 1];
    }
  }

  lemma {:induction false} AllZeros(ds: seq<nat>)
    requires forall i :: 0 <= i < |ds| ==> ds[i] == 0
    ensures Octal(ds) == 0
  {
    if ds != [] {
      AllZeros(ds[1..]);
    }
  }

  /** The enumeration meets every valid code, at the step that is its octal value, and no other. */
  lemma EveryCodeOnce(code: bv32, n: nat)
    requires Valid(code) && n < CODES
    ensures Nth(n) == code <==> n == Value(code)
  {
    NthValue(n);
    NthValue(Value(code));
    ValueInjective(Nth(Value(code)), code);
  }

  // ---------- The search ----------

  /** The contents of the two frequency registers: a password, and half of the code each. */
  function Register(pass: bv32, half: bv32): bv32 {
    (pass << 16) | half
  }

  /** The registers tell every code apart. */
  lemma RegistersHoldCode(pass: bv32, code: bv32)
    ensures var a, b := Register(pass, code & 0xffff), Register(pass, code >> 16);
            ((b & 0xffff) << 16) | (a & 0xffff) == code
  {
  }

  /** And they hold the password in their upper halves. */
  lemma RegistersHoldPassword(pass: bv32, code: bv32)
    ensures Register(pass, code & 0xffff) >> 16 == pass & 0xffff
    ensures Register(pass, code >> 16) >> 16 == pass & 0xffff
  {
  }

  /** The loop's code after `n` steps: the code of that value, or the mark above all codes. */
  ghost predicate AtStep(code: bv32, n: nat) {
    n <= CODES && if n < CODES then Valid(code) && code <= LAST && Value(code) == n else code > LAST
  }

  lemma UpToLast(code: bv32)
    requires Valid(code)
    ensures code <= LAST
  {
  }

  lemma StepOn(code: bv32, n: nat)
    requires AtStep(code, n) && code <= LAST
    ensures n < CODES && AtStep(NextCode(code), n + 1)
  {
    NextCodeIsSuccessor(code);
    if code != LAST {
      UpToLast(NextCode(code));
    }
  }

  method Advance(code: bv32, ghost n: nat) returns (next: bv32)
    requires AtStep(code, n) && code <= LAST
    ensures n < CODES && AtStep(next, n + 1)
  {
    StepOn(code, n);
    next := NextCode(code);
  }

  class Oscillator {
    const pass: bv32
    const divPass: bv32
    const meter: (bv32, bv32) -> nat  // measured kHz, for the two frequency registers
    var div: bv32
    var freqA: bv32
    var freqB: bv32

    constructor (pass: bv32, divPass: bv32, meter: (bv32, bv32) -> nat)
      ensures this.pass == pass && this.divPass == divPass && this.meter == meter
    {
      this.pass, this.divPass, this.meter := pass, divPass, meter;
      div, freqA, freqB := 0, 0, 0;
    }

    /** The registers hold this code. */
    ghost predicate IsSet(code: bv32)
      reads this
    {
      freqA == Register(pass, code & 0xffff) && freqB == Register(pass, code >> 16)
    }

    /** What the counter reports, in MHz, with this code set. */
    function Measured(code: bv32): nat {
      meter(Register(pass, code & 0xffff), Register(pass, code >> 16)) / 1000
    }

    ghost predicate Hit(code: bv32, low: nat, high: nat) {
      low <= Measured(code) <= high
    }

    /** No code of octal value below `n` has its frequency in the band. */
    ghost predicate Missed(n: nat, low: nat, high: nat) {
      forall code :: Valid(code) && Value(code) < n ==> !Hit(code, low, high)
    }

    lemma MissedNext(code: bv32, low: nat, high: nat)
      requires Valid(code) && Missed(Value(code), low, high) && !Hit(code, low, high)
      ensures Missed(Value(code) + 1, low, high)
    {
      forall c | Valid(c) && Value(c) < Value(code) + 1
        ensures !Hit(c, low, high)
      {
        if Value(c) == Value(code) {
          ValueInjective(c, code);
        }
      }
    }

    method SetDiv(d: bv32)
      requires 1 <= d <= 31
      modifies this`div
      ensures div == divPass + d
    {
      div := divPass + d;
    }

    method SetFreq(code: bv32)
      modifies this`freqA, this`freqB
      ensures IsSet(code) && meter(freqA, freqB) / 1000 == Measured(code)
    {
      freqA := Register(pass, code & 0xffff);
      freqB := Register(pass, code >> 16);
    }

    /** The code of octal value `n` is in the band, is set, and was measured at `mhz`. */
    ghost predicate Found(n: nat, low: nat, high: nat, mhz: nat)
      reads this
    {
      exists code :: Valid(code) && Value(code) == n && IsSet(code) && Hit(code, low, high) && mhz == Measured(code)
    }

    method Measure(code: bv32) returns (mhz: nat)
      modifies this`freqA, this`freqB
      ensures IsSet(code) && mhz == Measured(code) == meter(freqA, freqB) / 1000
    {
      SetFreq(code);
      mhz := meter(freqA, freqB) / 1000;
    }

    /** Sets a code, measures, and compares with the band. */
    method Try(code: bv32, low: nat, high: nat, ghost n: nat) returns (mhz: nat, inBand: bool)
      requires AtStep(code, n) && code <= LAST && Missed(n, low, high)
      modifies this`freqA, this`freqB
      ensures if inBand then n < CODES && Found(n, low, high, mhz) else Missed(n + 1, low, high)
      ensures inBand ==> mhz == meter(freqA, freqB) / 1000 && low <= mhz <= high
    {
      mhz := Measure(code);
      inBand := mhz >= low && mhz <= high;
      if !inBand {
        MissedNext(code, low, high);
      }
    }

    /** The loop of `FindFreq`. */
    method Search(low: nat, high: nat) returns (mhz: nat, ghost steps: nat)
      modifies this`freqA, this`freqB
      ensures steps <= CODES && Missed(steps, low, high)
      ensures if steps < CODES then Found(steps, low, high, mhz) else mhz == 0
      ensures steps < CODES ==> mhz == meter(freqA, freqB) / 1000 && low <= mhz <= high
    {
      var code: bv32 := 0;
      steps := 0;
      ZeroValue();
      while code <= LAST
        invariant AtStep(code, steps) && Missed(steps, low, high)
        decreases CODES - steps
      {
        var roscMhz, inBand := Try(code, low, high, steps);
        if inBand {
          return roscMhz, steps;
        }
        code := Advance(code, steps);
        steps := steps + 1;
      }
      return 0, steps;
    }

    /** The first code, in octal order, whose frequency is in the band stays set and its frequency is
        returned; 0 if there is no such code among all 8^8. `steps` counts the codes passed over. */
    method FindFreq(low: nat, high: nat) returns (mhz: nat, ghost steps: nat)
      modifies this
      ensures div == divPass + 1
      ensures steps <= CODES && Missed(steps, low, high)
      ensures if steps < CODES then Found(steps, low, high, mhz) else mhz == 0
      ensures steps < CODES ==> mhz == meter(freqA, freqB) / 1000 && low <= mhz <= high
    {
      SetDiv(1);
      mhz, steps := Search(low, high);
    }
  }
}
