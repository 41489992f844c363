/**
 Division by ten without a division instruction, and printing in decimal.

 The functions write out where the source computes modulo 2^32 or 2^64.
 */
module Decimal {
  import opened Basics
  import opened Numbers

  function Div10(v: nat): nat { v * 0xcccc_cccd / 0x8_0000_0000 }

  lemma Div10Exact(v: nat)
    requires v < K32
    ensures Div10(v) == v / 10
  {
    var q, r := v / 10, v % 10;
    assert v * 0xcccc_cccd == q * 0x8_0000_0000 + (2 * q + r * 0xcccc_cccd);
    DivUnique(v * 0xcccc_cccd, 0x8_0000_0000, q, 2 * q + r * 0xcccc_cccd);
  }

  /** What a remainder of the upper half adds to the quotient of the lower half. */
  function RestAdd(r: int): int
    requires 0 <= r < 10
  {
    [0x00000000, 0x1999999a, 0x33333334, 0x4ccccccd, 0x66666667,
     0x80000001, 0x9999999a, 0xb3333334, 0xcccccccd, 0xe6666667][r]
  }

  /** How much too large that is, in tenths. */
  function Excess(r: int): (e: int)
    requires 0 <= r < 10
    ensures 0 <= e <= 10 && r * K32 == 10 * RestAdd(r) - e
  {
    10 * RestAdd(r) - r * K32
  }

  /** The quotient before the correction. */
  function Guess(v: nat): nat
    requires v < K64
  {
    var hi, lo := v / K32, v % K32;
    Div10Exact(hi);
    var a, b := Div10(hi), Div10(lo);
    a * K32 + b + RestAdd(hi - a * 10)
  }

  function Div10l(v: nat): int
    requires v < K64
  {
    var ret := Guess(v);
    if ret * 10 % K64 > v then ret - 1 else ret
  }

  /** The guess is the quotient, or one more. */
  lemma GuessClose(v: nat)
    requires v < K64
    ensures v / 10 <= Guess(v) <= v / 10 + 1
  {
    var hi, lo := v / K32, v % K32;
    Div10Exact(hi);
    Div10Exact(lo);
    var a, r, b, c := hi / 10, hi % 10, lo / 10, lo % 10;
    var ret, e := Guess(v), Excess(r);
    assert v == 10 * ret + c - e;
    if c >= e {
      DivUnique(v, 10, ret, c - e);
    } else {
      DivUnique(v, 10, ret - 1, 10 + c - e);
    }
  }

  /** In the last six words the guess is one too much. */
  lemma GuessAtEnd(v: nat)
    requires K64 - 6 <= v < K64
    ensures Guess(v) == v / 10 + 1 && v / 10 == 1844674407370955161
  {
    DivUnique(v, K32, K32 - 1, v - (K32 - 1) * K32);
    Div10Exact(K32 - 1);
    Div10Exact(v % K32);
  }

  /** The division is exact as long as the product of the test fits 64 bits, and no further. */
  lemma Div10lExactIff(v: nat)
    requires v < K64
    ensures Div10l(v) == v / 10 <==> v <= K64 - 7
  {
    GuessClose(v);
    var ret := Guess(v);
    if v <= K64 - 7 {
      DivUnique(ret * 10, K64, 0, ret * 10);
    } else {
      GuessAtEnd(v);
      DivUnique(ret * 10, K64, 1, 4);
    }
  }

  // ----- Decimal numerals -----

  // Characters of the output are bytes.

  const ZERO: Byte := 48
  const MINUS: Byte := 45

  predicate IsDigit(c: Byte) { ZERO <= c <= ZERO + 9 }

  /** The number that a string of digits denotes. */
  function Number(s: seq<Byte>): int { if s == [] then 0 else 10 * Number(s[..|s| - 1]) + (s[|s| - 1] - ZERO) }

  /** The canonical numeral of a number: digits only, and no zero in front. */
  predicate IsNumeral(s: seq<Byte>, v: nat) {
    s != [] && (forall i :: 0 <= i < |s| ==> IsDigit(s[i])) && (s[0] == ZERO ==> |s| == 1) && Number(s) == v
  }

  lemma {:induction false} NumberPositive(s: seq<Byte>)
    requires s != [] && (forall i :: 0 <= i < |s| ==> IsDigit(s[i])) && s[0] != ZERO
    ensures Number(s) > 0
    decreases |s|
  {
    if |s| > 1 {
      NumberPositive(s[..|s| - 1]);
    }
  }

  /** There is only one. */
  lemma {:induction false} NumeralUnique(s: seq<Byte>, t: seq<Byte>, v: nat)
    requires IsNumeral(s, v) && IsNumeral(t, v)
    ensures s == t
    decreases |s|
  {
    var m, n := |s| - 1, |t| - 1;
    assert s[m] == t[n] && Number(s[..m]) == Number(t[..n]);
    if m > 0 {
      NumberPositive(s[..m]);
    }
    if n > 0 {
      NumberPositive(t[..n]);
    }
    if m > 0 && n > 0 {
      NumeralUnique(s[..m], t[..n], v / 10);
      assert s == s[..m] + [s[m]] && t == t[..n] + [t[n]];
    } else {
      assert m == 0 && n == 0;
    }
  }

  // ----- Printing -----

  /** The digit for the difference between v and ten times its quotient. */
  function Digit(v: nat): Byte
    requires v < K64
  {
    (ZERO + (v - Div10l(v) * 10) % K64) % 256
  }

  lemma QuotientSmaller(v: nat)
    requires 0 < v < K64
    ensures 0 <= Div10l(v) < v && Div10l(v) <= K64 - 7
  {
    Div10lExactIff(v);
    GuessClose(v);
  }

  /** The characters that the loop writes for v, which is none for zero. */
  function Printed(v: nat): seq<Byte>
    requires v < K64
  {
    if v == 0 then []
    else
      QuotientSmaller(v);
      Printed(Div10l(v)) + [Digit(v)]
  }

  function Pow10(k: nat): nat { if k == 0 then 1 else 10 * Pow10(k - 1) }

  lemma Pow10Of20()
    ensures Pow10(19) == 10000000000000000000
  {
    assert Pow10(4) == 10000;
    assert Pow10(8) == 100000000;
    assert Pow10(12) == 1000000000000;
    assert Pow10(16) == 10000000000000000;
  }

  lemma {:induction false} PrintedSize(v: nat, k: nat)
    requires v < Pow10(k) && v <= K64 - 7
    ensures |Printed(v)| <= k
  {
    if v > 0 {
      Div10lExactIff(v);
      PrintedSize(v / 10, k - 1);
    }
  }

  /** Five bytes of the buffer are never used. */
  lemma PrintedFits(v: nat)
    requires v < K64
    ensures |Printed(v)| <= 20
  {
    if v > 0 {
      Pow10Of20();
      Div10lExactIff(v);
      GuessClose(v);
      QuotientSmaller(v);
      PrintedSize(Div10l(v), 19);
    }
  }

  lemma DigitIs(v: nat)
    requires v <= K64 - 7
    ensures Div10l(v) == v / 10 && Digit(v) == ZERO + v % 10
  {
    Div10lExactIff(v);
    DivUnique(v % 10, K64, 0, v % 10);
    assert v - v / 10 * 10 == v % 10;
  }

  lemma OneDigit(s: seq<Byte>)
    requires |s| == 1
    ensures Number(s) == s[0] - ZERO
  {
    assert s[..0] == [];
  }

  /** One more digit at the end. */
  lemma NumeralExtends(front: seq<Byte>, q: nat, d: int)
    requires if q == 0 then front == [] else IsNumeral(front, q)
    requires 0 <= d < 10 && (q > 0 || d > 0)
    ensures IsNumeral(front + [ZERO + d], 10 * q + d)
  {
    var s := front + [ZERO + d];
    assert s[..|s| - 1] == front;
    if |front| == 1 {
      OneDigit(front);
    }
  }

  lemma {:induction false} PrintedIsNumeral(v: nat)
    requires 0 < v <= K64 - 7
    ensures IsNumeral(Printed(v), v)
  {
    DigitIs(v);
    if v / 10 > 0 {
      PrintedIsNumeral(v / 10);
    }
    NumeralExtends(Printed(v / 10), v / 10, v % 10);
  }

  /** In the last six words the last character is not a digit. */
  lemma PrintedAtEnd(v: nat)
    requires K64 - 6 <= v < K64
    ensures Printed(v) != [] && !IsDigit(Printed(v)[|Printed(v)| - 1])
  {
    GuessAtEnd(v);
    DivUnique(Guess(v) * 10, K64, 1, 4);
    var d := v - Div10l(v) * 10;
    assert -10 <= d <= -5;
    DivUnique(d, K64, -1, d + K64);
    DivUnique(ZERO + d + K64, 256, K64 / 256, ZERO + d);
  }

  /** The characters are the numeral of v exactly where the division is exact. */
  lemma PrintsNumeralIff(v: nat)
    requires 0 < v < K64
    ensures IsNumeral(Printed(v), v) <==> v <= K64 - 7
  {
    if v <= K64 - 7 {
      PrintedIsNumeral(v);
    } else {
      PrintedAtEnd(v);
    }
  }

  const SIZE: nat := 25

  /** One more digit in front of those that are written. */
  lemma PrintedStep(value: nat, val: nat, done: seq<Byte>)
    requires value < K64 && 0 < val < K64 && Printed(value) == Printed(val) + done
    ensures Div10l(val) < val && Printed(value) == Printed(Div10l(val)) + ([Digit(val)] + done)
    ensures |done| < |Printed(value)|
  {
    hide Digit, Div10l;
    QuotientSmaller(val);
    assert Printed(val) == Printed(Div10l(val)) + [Digit(val)];
  }

  method PutDigit(buf: array<Byte>, end: nat, val: nat) returns (p: nat)
    requires buf.Length == SIZE && 0 < val < K64 && 0 < end <= SIZE
    modifies buf
    ensures p == end - 1 && buf[p..] == [Digit(val)] + old(buf[end..])
  {
    hide *;
    p := end - 1;
    buf[p] := Digit(val);
  }

  /** The loop: digits are written backwards from the end of the buffer, down to p. */
  method WriteDigits(buf: array<Byte>, value: nat) returns (p: nat)
    requires buf.Length == SIZE && value < K64
    modifies buf
    ensures 5 <= p <= SIZE && buf[p..] == Printed(value)
  {
    hide Printed, Digit, Div10l;
    p := SIZE;
    var val := value;
    PrintedFits(value);
    assert Printed(value) == Printed(value) + buf[p..];
    while val != 0
      invariant 0 <= val < K64 && p <= SIZE && Printed(value) == Printed(val) + buf[p..]
    {
      PrintedStep(value, val, buf[p..]);
      QuotientSmaller(val);
      var next := Div10l(val);
      p := PutDigit(buf, p, val);
      val := next;
    }
    PrintedZero();
    assert [] + buf[p..] == buf[p..];
  }

  lemma PrintedZero()
    ensures Printed(0) == []
  {
  }

  method WriteDec(val: nat) returns (out: seq<Byte>)
    requires val < K64
    ensures IsNumeral(out, val) <==> val <= K64 - 7
    ensures |out| <= 20
  {
    if val == 0 {
      OneDigit([ZERO]);
      return [ZERO];
    }
    PrintsNumeralIff(val);
    var buf := new Byte[SIZE](_ => 0);
    var p := WriteDigits(buf, val);
    out := buf[p..];
  }

  /** The sign and the numeral of the magnitude, for every number of 64 bits. */
  method WriteSignedDec(val: int) returns (out: seq<Byte>)
    requires -K64 <= 2 * val < K64
    ensures out != [] && |out| <= 21
    ensures val >= 0 ==> IsNumeral(out, val)
    ensures val < 0 ==> out[0] == MINUS && IsNumeral(out[1..], -val)
  {
    if val == 0 {
      OneDigit([ZERO]);
      return [ZERO];
    }
    var magnitude := if val < 0 then -val else val;
    PrintsNumeralIff(magnitude);
    var buf := new Byte[SIZE](_ => 0);
    var p := WriteDigits(buf, magnitude);
    ghost var digits := buf[p..];
    if val < 0 {
      p := p - 1;
      buf[p] := MINUS;
      assert buf[p..] == [MINUS] + digits;
    }
    out := buf[p..];
  }
}
