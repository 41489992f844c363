/**
 Gathering the bits of a word under a mask, and scattering them back.

 Words are numbers below 2^32; a bit operation is defined by what it does to the lowest bit
 and to the rest.
 */
module Bits {
  import opened Numbers

  const WordBits: nat := 32

  function Bit(b: bool): nat { if b then 1 else 0 }

  function And(a: nat, b: nat): (r: nat)
    ensures r <= a && r <= b
    decreases a
  {
    if a == 0 then 0 else Bit(a % 2 == 1 && b % 2 == 1) + 2 * And(a / 2, b / 2)
  }

  /** a & ~b */
  function AndNot(a: nat, b: nat): (r: nat)
    ensures r <= a
    decreases a
  {
    if a == 0 then 0 else Bit(a % 2 == 1 && b % 2 == 0) + 2 * AndNot(a / 2, b / 2)
  }

  function Or(a: nat, b: nat): nat
    decreases a + b
  {
    if a == 0 && b == 0 then 0 else Bit(a % 2 == 1 || b % 2 == 1) + 2 * Or(a / 2, b / 2)
  }

  function Popcount(m: nat): nat { if m == 0 then 0 else m % 2 + Popcount(m / 2) }

  /** The bits of v under the mask, packed together. */
  function Gather(v: nat, m: nat): nat
    decreases m
  {
    if m == 0 then 0 else if m % 2 == 1 then v % 2 + 2 * Gather(v / 2, m / 2) else Gather(v / 2, m / 2)
  }

  /** The bits of x, spread out under the mask. */
  function Scatter(x: nat, m: nat): nat
    decreases m
  {
    if m == 0 then 0 else if m % 2 == 1 then x % 2 + 2 * Scatter(x / 2, m / 2) else 2 * Scatter(x, m / 2)
  }

  // ----- The two are inverse -----

  lemma {:induction false} ScatterGather(v: nat, m: nat)
    ensures Scatter(Gather(v, m), m) == And(v, m)
    decreases m
  {
    if m > 0 {
      ScatterGather(v / 2, m / 2);
    }
    if m == 0 || v == 0 {
      AndZero(v);
      GatherZero(m);
    }
  }

  lemma {:induction false} AndZero(v: nat)
    ensures And(v, 0) == 0
  {
  }

  lemma {:induction false} GatherZero(m: nat)
    ensures Gather(0, m) == 0 && Scatter(0, m) == 0
    decreases m
  {
    if m > 0 {
      GatherZero(m / 2);
    }
  }

  lemma {:induction false} GatherScatter(x: nat, m: nat)
    requires x < Pow2(Popcount(m))
    ensures Gather(Scatter(x, m), m) == x
    decreases m
  {
    if m > 0 {
      var rest := if m % 2 == 1 then x / 2 else x;
      var high := Scatter(rest, m / 2);
      GatherScatter(rest, m / 2);
      DivUnique(Scatter(x, m), 2, high, if m % 2 == 1 then x % 2 else 0);
    }
  }

  lemma {:induction false} GatherBelow(v: nat, m: nat)
    ensures Gather(v, m) < Pow2(Popcount(m))
    decreases m
  {
    if m > 0 {
      GatherBelow(v / 2, m / 2);
    }
  }

  /** Scattering puts bits under the mask only. */
  lemma {:induction false} ScatterUnder(x: nat, m: nat)
    ensures And(Scatter(x, m), m) == Scatter(x, m) && AndNot(Scatter(x, m), m) == 0
    decreases m
  {
    if m > 0 {
      ScatterUnder(if m % 2 == 1 then x / 2 else x, m / 2);
    }
  }

  // ----- patch_by_mask -----

  function PatchByMask(src: nat, dst: nat, mask1: nat, mask2: nat): nat
    requires Popcount(mask1) == Popcount(mask2)
  {
    Or(AndNot(dst, mask2), Scatter(Gather(src, mask1), mask2))
  }

  /** The parts of a word: a lowest bit b and a rest h. */
  lemma Halves(b: bool, h: nat)
    ensures (Bit(b) + 2 * h) / 2 == h && ((Bit(b) + 2 * h) % 2 == 1 <==> b)
  {
  }

  lemma AndParts(b: bool, h: nat, m: nat)
    ensures And(Bit(b) + 2 * h, m) == Bit(b && m % 2 == 1) + 2 * And(h, m / 2)
    ensures AndNot(Bit(b) + 2 * h, m) == Bit(b && m % 2 == 0) + 2 * AndNot(h, m / 2)
  {
    Halves(b, h);
  }

  lemma OrHalves(b: bool, h: nat, c: bool, k: nat)
    ensures Or(Bit(b) + 2 * h, Bit(c) + 2 * k) == Bit(b || c) + 2 * Or(h, k)
  {
    Halves(b, h);
    Halves(c, k);
  }

  /** What the "or" of bits outside and bits inside of a mask is made of. */
  ghost predicate Parted(a: nat, b: nat, m: nat) {
    And(Or(AndNot(a, m), b), m) == b && AndNot(Or(AndNot(a, m), b), m) == AndNot(a, m)
  }

  lemma PatchedHalves(a: bool, h: nat, b: bool, k: nat, m: nat)
    ensures Or(AndNot(Bit(a) + 2 * h, m), Bit(b) + 2 * k) == Bit((a && m % 2 == 0) || b) + 2 * Or(AndNot(h, m / 2), k)
  {
    AndParts(a, h, m);
    OrHalves(a && m % 2 == 0, AndNot(h, m / 2), b, k);
  }

  lemma PartedHalves(a: bool, h: nat, b: bool, k: nat, m: nat)
    requires Parted(h, k, m / 2) && (b ==> m % 2 == 1)
    ensures Parted(Bit(a) + 2 * h, Bit(b) + 2 * k, m)
  {
    PatchedHalves(a, h, b, k, m);
    AndParts((a && m % 2 == 0) || b, Or(AndNot(h, m / 2), k), m);
    AndParts(a, h, m);
  }

  lemma {:induction false} OrParts(a: nat, b: nat, m: nat)
    requires And(b, m) == b
    ensures Parted(a, b, m)
    decreases a + b
  {
    if a + b > 0 {
      AndParts(b % 2 == 1, b / 2, m);
      OrParts(a / 2, b / 2, m / 2);
      PartedHalves(a % 2 == 1, a / 2, b % 2 == 1, b / 2, m);
    }
  }

  /** Only the bits of v under the mask matter. */
  lemma {:induction false} GatherAnd(v: nat, m: nat)
    ensures Gather(And(v, m), m) == Gather(v, m)
    decreases m
  {
    if m > 0 {
      GatherAnd(v / 2, m / 2);
    }
  }

  /** The field arrives, and nothing else changes. */
  lemma PatchMovesField(src: nat, dst: nat, mask1: nat, mask2: nat)
    requires Popcount(mask1) == Popcount(mask2)
    ensures var r := PatchByMask(src, dst, mask1, mask2);
      Gather(r, mask2) == Gather(src, mask1) && AndNot(r, mask2) == AndNot(dst, mask2)
  {
    var r, x := PatchByMask(src, dst, mask1, mask2), Gather(src, mask1);
    GatherBelow(src, mask1);
    ScatterUnder(x, mask2);
    OrParts(dst, Scatter(x, mask2), mask2);
    GatherAnd(r, mask2);
    GatherScatter(x, mask2);
  }

  // ----- The loops of bitops.h -----

  function Shr(v: nat, k: nat): nat { if k == 0 then v else Shr(v, k - 1) / 2 }

  function Shl(v: nat, k: nat): nat { if k == 0 then v else 2 * Shl(v, k - 1) }

  /** A word below 2^n has no bits from n on. */
  lemma {:induction false} NoHighBits(v: nat, n: nat, k: nat)
    requires v < Pow2(n) && k <= n
    ensures Shr(v, k) < Pow2(n - k)
  {
    if k > 0 {
      NoHighBits(v, n, k - 1);
    }
  }

  /** The loop counts down from the highest bit.  (The first turn of the C loop shifts by the
      word size, and contributes nothing.) */
  method GetBitsByMask(val: nat, mask: nat) returns (ret: nat)
    requires val < Pow2(WordBits) && mask < Pow2(WordBits)
    ensures ret == Gather(val, mask)
  {
    ret := 0;
    var sh: nat := WordBits;
    NoHighBits(mask, WordBits, WordBits);
    while sh > 0
      invariant sh <= WordBits
      invariant ret == Gather(Shr(val, sh), Shr(mask, sh))
    {
      sh := sh - 1;
      if Shr(mask, sh) % 2 == 1 {
        ret := 2 * ret + Shr(val, sh) % 2;
      }
    }
  }

  lemma {:induction false} ShlAdd(a: nat, b: nat, k: nat)
    ensures Shl(a + b, k) == Shl(a, k) + Shl(b, k) && Shl(2 * b, k) == Shl(b, k + 1)
  {
    if k > 0 {
      ShlAdd(a, b, k - 1);
    }
  }

  lemma {:induction false} ShlZero(k: nat)
    ensures Shl(0, k) == 0
  {
    if k > 0 {
      ShlZero(k - 1);
    }
  }

  /** The loop ends after the last bit of val.  A val with more bits than the mask never runs
      out: then the shift reaches the word size, and ok is false. */
  method SetBitsByMask(val: nat, mask: nat) returns (ret: nat, ok: bool)
    requires mask < Pow2(WordBits)
    ensures ok <==> val < Pow2(Popcount(mask))
    ensures ok ==> ret == Scatter(val, mask)
  {
    ret := 0;
    var sh: nat, v: nat := 0, val;
    while v != 0
      invariant sh <= WordBits && Scattering(val, mask, ret, v, Shr(mask, sh), sh)
      decreases WordBits - sh
    {
      if sh == WordBits {
        NoHighBits(mask, WordBits, WordBits);
        return ret, false;
      }
      var bit := Shr(mask, sh) % 2 == 1;
      ScatteringOn(val, mask, ret, v, Shr(mask, sh), sh);
      if bit {
        ret := ret + Shl(v % 2, sh);
        v := v / 2;
      }
      sh := sh + 1;
    }
    ScatteringEnds(val, mask, ret, Shr(mask, sh), sh);
    ok := true;
  }

  /** The bits in ret, and those of v still to be put under the rest m of the mask. */
  ghost predicate Scattering(val: nat, mask: nat, ret: nat, v: nat, m: nat, sh: nat) {
    && ret < Shl(1, sh) && Scatter(val, mask) == ret + Shl(Scatter(v, m), sh)
    && (val < Pow2(Popcount(mask)) <==> v < Pow2(Popcount(m)))
  }

  lemma ScatteringOn(val: nat, mask: nat, ret: nat, v: nat, m: nat, sh: nat)
    requires Scattering(val, mask, ret, v, m, sh) && v > 0
    ensures m % 2 == 1 ==> Scattering(val, mask, ret + Shl(v % 2, sh), v / 2, m / 2, sh + 1)
    ensures m % 2 == 0 ==> Scattering(val, mask, ret, v, m / 2, sh + 1)
  {
    ScatterStep(v, m, sh);
  }

  lemma ScatteringEnds(val: nat, mask: nat, ret: nat, m: nat, sh: nat)
    requires Scattering(val, mask, ret, 0, m, sh)
    ensures val < Pow2(Popcount(mask)) && ret == Scatter(val, mask)
  {
    GatherZero(m);
    ShlZero(sh);
  }

  lemma ScatterStep(v: nat, m: nat, sh: nat)
    requires v > 0
    ensures m % 2 == 1 ==>
      && Shl(Scatter(v, m), sh) == Shl(v % 2, sh) + Shl(Scatter(v / 2, m / 2), sh + 1) && Shl(v % 2, sh) <= Shl(1, sh)
      && (v < Pow2(Popcount(m)) <==> v / 2 < Pow2(Popcount(m / 2)))
    ensures m % 2 == 0 ==>
      && Shl(Scatter(v, m), sh) == Shl(Scatter(v, m / 2), sh + 1)
      && (v < Pow2(Popcount(m)) <==> v < Pow2(Popcount(m / 2)))
  {
    if m % 2 == 1 {
      ShlAdd(v % 2, 2 * Scatter(v / 2, m / 2), sh);
      ShlAdd(0, Scatter(v / 2, m / 2), sh);
      ShlZero(sh);
    } else if m > 0 {
      ShlAdd(0, Scatter(v, m / 2), sh);
    } else {
      ShlZero(sh);
    }
  }

  /** The lowest bit and the rest of a number. */
  lemma PopcountHalves(h: nat, b: bool)
    ensures Popcount(Bit(b) + 2 * h) == Bit(b) + Popcount(h)
  {
    Halves(b, h);
  }

  lemma AndHalves(g: nat, b: bool, h: nat, c: bool)
    ensures And(Bit(b) + 2 * g, Bit(c) + 2 * h) == Bit(b && c) + 2 * And(g, h)
  {
    Halves(b, g);
    Halves(c, h);
  }

  lemma {:induction false} ClearLowest(v: nat)
    requires v > 0
    ensures Popcount(And(v, v - 1)) == Popcount(v) - 1 && And(v, v - 1) < v
    decreases v
  {
    hide And, Popcount;
    var h := v / 2;
    if v % 2 == 1 {
      AndHalves(h, true, h, false);
      AndSelf(h);
      PopcountHalves(h, true);
      PopcountHalves(h, false);
    } else {
      ClearLowest(h);
      AndHalves(h, false, h - 1, true);
      PopcountHalves(h, false);
      PopcountHalves(And(h, h - 1), false);
    }
  }

  lemma {:induction false} AndSelf(v: nat)
    ensures And(v, v) == v
  {
    if v > 0 {
      AndSelf(v / 2);
    }
  }

  /** One turn for each bit that is set. */
  method BitsCount(value: nat) returns (c: nat)
    ensures c == Popcount(value)
  {
    c := 0;
    var v := value;
    while v != 0
      invariant c + Popcount(v) == Popcount(value)
    {
      ClearLowest(v);
      v := And(v, v - 1);
      c := c + 1;
    }
  }
}
