/** Multiplication and Euclidean division facts that the solver does not find unaided. */
module Arith {

  lemma MulMonotone(a: int, b: int, c: int)
    requires a <= b && c >= 0
    ensures a * c <= b * c
  {
    assert 0 <= (b - a) * c;
  }

  lemma DivModUnique(x: int, d: int, q: int, r: int)
    requires 0 <= r < d && x == d * q + r
    ensures x / d == q && x % d == r
  {
    var k := x / d - q;
    assert d * k == r - x % d;
    if k >= 1 {
      MulMonotone(1, k, d);
    } else if k <= -1 {
      MulMonotone(k, -1, d);
    }
  }

  lemma DivNat(v: nat, d: nat)
    requires d > 0
    ensures v / d >= 0 && 0 <= v % d < d && v == (v / d) * d + v % d
  {
    if v / d < 0 { MulMonotone(v / d, -1, d); }
  }

  lemma MulDistribute(a: int, b: int, c: int)
    ensures a * (b + c) == a * b + a * c
  {
  }

  lemma MulAssociate(a: int, b: int, c: int)
    ensures a * (b * c) == (a * b) * c
  {
  }

  /** A common factor comes out of a remainder. */
  lemma ModScale(c: nat, p: nat, q: nat)
    requires p > 0 && q > 0
    ensures p * q > 0
    ensures c * p % (p * q) == c % q * p
    ensures c * p % (p * q) <= p * q - p
  {
    var d, r := c / q, c % q;
    assert c * p == (p * q) * d + r * p by {
      assert c == q * d + r;
      MulDistribute(p, q * d, r);
      MulAssociate(p, q, d);
    }
    MulMonotone(r, q - 1, p);
    assert (q - 1) * p == p * q - p;
    DivModUnique(c * p, p * q, d, r * p);
  }

  /** Reducing a summand does not change the remainder. */
  lemma ModAbsorb(x: int, y: int, m: int)
    requires m > 0
    ensures (x % m + y) % m == (x + y) % m
  {
    var q := (x % m + y) / m;
    var r := (x % m + y) % m;
    assert x + y == m * (x / m) + (x % m + y);
    MulDistribute(m, x / m, q);
    DivModUnique(x + y, m, x / m + q, r);
  }
}
