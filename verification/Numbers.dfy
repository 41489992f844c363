/** Division facts that the solver does not find by itself, and powers of two. */
module Numbers {

  const K16: int := 0x1_0000
  const K32: int := 0x1_0000_0000
  const K64: int := 0x1_0000_0000_0000_0000

  lemma MulStrict(d: int, a: int, b: int)
    requires d > 0 && a < b
    ensures a * d + d <= b * d
  {
    assert (b - a - 1) * d >= 0;
    assert (b - a - 1) * d == b * d - a * d - d;
  }

  lemma MulMono(d: int, a: int, b: int)
    requires d >= 0 && a <= b
    ensures a * d <= b * d
  {
  }

  /** Quotient and remainder are unique. */
  lemma DivUnique(x: int, d: int, q: int, r: int)
    requires d > 0 && x == q * d + r && 0 <= r < d
    ensures x / d == q && x % d == r
  {
    var q', r' := x / d, x % d;
    assert x == q' * d + r';
    if q' < q {
      MulStrict(d, q', q);
    } else if q < q' {
      MulStrict(d, q, q');
    }
  }

  lemma MulDistributes(a: int, b: int, d: int)
    ensures (a + b) * d == a * d + b * d
  {
  }

  lemma MulAssociates(a: int, b: int, c: int)
    ensures a * (b * c) == a * b * c == a * c * b
  {
  }

  lemma DivDiv(x: int, a: int, b: int)
    requires a > 0 && b > 0
    ensures a * b > 0 && x / a / b == x / (a * b)
  {
    var y, r, ab := x / a, x % a, a * b;
    var q, s := y / b, y % b;
    MulStrict(a, 0, b);
    MulStrict(a, s, b);
    MulMono(a, 0, s);
    MulDistributes(q * b, s, a);
    MulAssociates(q, a, b);
    DivUnique(x, ab, q, s * a + r);
  }

  lemma ModDiv(x: int, a: int, b: int)
    requires a > 0 && b > 0
    ensures a * b > 0 && x % (a * b) / a == x / a % b
  {
    DivDiv(x, a, b);
    var q, y := x / (a * b), x / a;
    assert x == q * (a * b) + x % (a * b) && x == y * a + x % a && y == q * b + y % b;
    MulAssociates(q, a, b);
    MulDistributes(q * b, y % b, a);
    DivUnique(x % (a * b), a, y % b, x % a);
  }

  function Pow2(n: nat): (p: nat)
    ensures p > 0
  {
    if n == 0 then 1 else 2 * Pow2(n - 1)
  }

  lemma {:induction false} Pow2Add(a: nat, b: nat)
    ensures Pow2(a + b) == Pow2(a) * Pow2(b)
  {
    if a > 0 {
      Pow2Add(a - 1, b);
      MulAssociates(2, Pow2(a - 1), Pow2(b));
    }
  }
}
