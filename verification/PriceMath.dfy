/**
 Conversions between prices, each a whole number of units of a power of ten, by decimal arithmetic:
 products are exact, quotients are rounded to 16 decimals, and results are cut to 64-bit integers.
 */
module PriceMath {
  import opened Arith
  import opened Bits
  import opened Numerals

  // ---------------------------------------------------------------- decimals

  datatype Decimal = Decimal(coef: nat, exp: int)

  const DIVISION_PRECISION := 16

  function Mul(a: Decimal, b: Decimal): Decimal {
    Decimal(a.coef * b.coef, a.exp + b.exp)
  }

  /** The nearest integer to a quotient, halves up. */
  function RoundDiv(a: nat, b: nat): (q: nat)
    requires b > 0
  {
    DivNat(a, b);
    if 2 * (a % b) >= b then a / b + 1 else a / b
  }

  lemma RoundDivNearest(a: nat, b: nat)
    requires b > 0
    ensures 2 * a - 2 * (RoundDiv(a, b) * b) <= b && 2 * (RoundDiv(a, b) * b) - 2 * a <= b
  {
    DivNat(a, b);
    var q, r := a / b, a % b;
    assert a == q * b + r;
    assert (q + 1) * b == q * b + b;
  }

  function DivTop(a: Decimal, b: Decimal): nat {
    var e := a.exp - b.exp + DIVISION_PRECISION;
    if e < 0 then a.coef else a.coef * Pow(10, e)
  }

  function DivBottom(a: Decimal, b: Decimal): nat {
    var e := a.exp - b.exp + DIVISION_PRECISION;
    if e < 0 then b.coef * Pow(10, -e) else b.coef
  }

  function Div(a: Decimal, b: Decimal): Decimal
    requires b.coef > 0
  {
    Decimal(RoundDiv(DivTop(a, b), DivBottom(a, b)), -DIVISION_PRECISION)
  }

  /** The integer part. */
  function Whole(d: Decimal): (n: nat) {
    if d.exp >= 0 then d.coef * Pow(10, d.exp) else
      DivNat(d.coef, Pow(10, -d.exp));
      d.coef / Pow(10, -d.exp)
  }

  /** The low 64 bits. */
  function ToUint64(n: nat): uint64 {
    n % 0x1_0000_0000_0000_0000
  }

  // ---------------------------------------------------------------- the code

  /** The results before they are cut to 64 bits. */
  function WideInvert(price: uint64, exponent: int): nat
    requires price != 0
  {
    Whole(Mul(Div(Decimal(1, 0), Decimal(price, exponent)), Decimal(1, -exponent)))
  }

  function WideMultiply(price: uint64, exponent: int, adjustByPrice: uint64, adjustByExponent: int): nat {
    Whole(Mul(Mul(Decimal(price, exponent), Decimal(adjustByPrice, adjustByExponent)), Decimal(1, -exponent)))
  }

  function WideDivide(adjustByPrice: uint64, adjustByExponent: int, price: uint64, exponent: int): nat
    requires price != 0
  {
    Whole(Mul(Div(Decimal(adjustByPrice, adjustByExponent), Decimal(price, exponent)), Decimal(1, -exponent)))
  }

  function Invert(price: uint64, exponent: int): uint64 {
    if price == 0 then 0 else ToUint64(WideInvert(price, exponent))
  }

  function Multiply(price: uint64, exponent: int, adjustByPrice: uint64, adjustByExponent: int): uint64 {
    ToUint64(WideMultiply(price, exponent, adjustByPrice, adjustByExponent))
  }

  function Divide(adjustByPrice: uint64, adjustByExponent: int, price: uint64, exponent: int): uint64 {
    if price == 0 then 0 else ToUint64(WideDivide(adjustByPrice, adjustByExponent, price, exponent))
  }

  // ---------------------------------------------------------------- real values

  /** Ten to a power. */
  function Ten(e: int): (r: real)
    ensures r > 0.0
  {
    if e >= 0 then Pow(10, e) as real else 1.0 / Pow(10, -e) as real
  }

  function Real(d: Decimal): (r: real)
    ensures r >= 0.0
  {
    d.coef as real * Ten(d.exp)
  }

  lemma TenNat(a: nat, b: nat)
    ensures Ten(a) * Ten(b) == Ten(a + b)
  {
    hide Pow;
    PowAdd(10, a, b);
  }

  lemma TenInverse(e: int)
    ensures Ten(e) * Ten(-e) == 1.0
  {
    hide Pow;
    if e == 0 { PowZero(); }
  }

  lemma PowZero()
    ensures Pow(10, 0) == 1
  {
  }

  lemma MulCommutes(x: real, y: real, z: real)
    ensures (x * y) * z == x * (y * z) && x * y == y * x
  {
  }

  lemma TenAdd(a: int, b: int)
    ensures Ten(a) * Ten(b) == Ten(a + b)
  {
    hide Ten;
    var x, y, z := Ten(a), Ten(b), Ten(a + b);
    var u, v, w := Ten(-a), Ten(-b), Ten(-(a + b));
    TenInverse(a);
    TenInverse(b);
    TenInverse(a + b);
    if a >= 0 && b >= 0 {
      TenNat(a, b);
    } else if a < 0 && b < 0 {
      TenNat(-a, -b);
      Rearrange(x, y, u, v);
      CancelFactor(x * y, z, w);
    } else if a + b >= 0 && a < 0 {
      TenNat(-a, a + b);
      TenSum(u, z, y, x);
    } else if a + b >= 0 {
      TenNat(-b, a + b);
      TenSum(v, z, x, y);
      MulCommutes(x, y, 1.0);
    } else if a < 0 {
      TenNat(b, -(a + b));
      TenLess(x, u, y, z, w);
    } else {
      TenNat(a, -(a + b));
      TenLess(y, v, x, z, w);
      MulCommutes(x, y, 1.0);
    }
  }

  /** If `u` times `z` is `y`, then `y` times the inverse of `u` is `z`. */
  lemma TenSum(u: real, z: real, y: real, x: real)
    ensures u * z == y && x * u == 1.0 ==> x * y == z
  {
    MulCommutes(x, u, z);
  }

  /** If `y` times `w` is `u`, then `y` times the inverse of `u` is the inverse of `w`. */
  lemma TenLess(x: real, u: real, y: real, z: real, w: real)
    requires y * w == u && x * u == 1.0 && z * w == 1.0
    ensures x * y == z
  {
    MulCommutes(x, y, w);
    CancelFactor(x * y, z, w);
  }

  lemma Rearrange(x: real, y: real, u: real, v: real)
    ensures (x * y) * (u * v) == (x * u) * (y * v)
  {
    MulCommutes(x, y, u * v);
    MulCommutes(y, u, v);
    MulCommutes(u, y, v);
    MulCommutes(x, u, y * v);
  }

  lemma CancelFactor(x: real, y: real, k: real)
    requires k != 0.0 && x * k == y * k
    ensures x == y
  {
    assert (x - y) * k == 0.0;
  }

  lemma MulExact(a: Decimal, b: Decimal)
    ensures Real(Mul(a, b)) == Real(a) * Real(b)
  {
    hide Ten;
    TenAdd(a.exp, b.exp);
    var x, y, s, t := a.coef as real, b.coef as real, Ten(a.exp), Ten(b.exp);
    assert (a.coef * b.coef) as real == x * y;
    MulCommutes(x, y, s * t);
    MulCommutes(y, s, t);
    MulCommutes(s, y, t);
    MulCommutes(x, s, y * t);
  }

  /** The integer part is within one below the value. */
  lemma WholeIsFloor(d: Decimal)
    ensures Whole(d) as real <= Real(d) < Whole(d) as real + 1.0
  {
    hide Pow;
    if d.exp >= 0 {
      assert (d.coef * Pow(10, d.exp)) as real == d.coef as real * Pow(10, d.exp) as real;
    } else {
      var p := Pow(10, -d.exp);
      DivNat(d.coef, p);
      FloorDiv(d.coef, p);
    }
  }

  lemma FloorDiv(n: nat, p: nat)
    requires p > 0 && n / p >= 0
    ensures (n / p) as real <= n as real * (1.0 / p as real) < (n / p) as real + 1.0
  {
    var q, r := n / p, n % p;
    var inverse := 1.0 / p as real;
    assert p as real * inverse == 1.0;
    assert n == q * p + r;
    assert n as real == q as real * p as real + r as real;
    assert n as real * inverse == q as real * (p as real * inverse) + r as real * inverse;
    Below(r as real, p as real, inverse);
  }

  lemma Below(r: real, p: real, inverse: real)
    requires 0.0 <= r < p && p * inverse == 1.0 && inverse > 0.0
    ensures 0.0 <= r * inverse < 1.0
  {
    if r == 0.0 {
      assert r * inverse == 0.0;
    } else {
      PositiveProduct(r, inverse);
    }
    ScaleStrictly(r, p, inverse);
    var rest, all := r * inverse, p * inverse;
    assert rest < all;
    assert all == 1.0;
    assert 0.0 <= rest;
  }

  lemma ScaleStrictly(a: real, b: real, k: real)
    requires a < b && k > 0.0
    ensures a * k < b * k
  {
    var rest := b - a;
    PositiveProduct(rest, k);
    Distribute(rest, a, k);
  }

  lemma Distribute(x: real, y: real, z: real)
    ensures (x + y) * z == x * z + y * z
  {
  }

  lemma PositiveProduct(x: real, y: real)
    requires x > 0.0 && y > 0.0
    ensures x * y > 0.0
  {
  }

  // ---------------------------------------------------------------- multiplication

  /** The product of two prices is the exact one rounded down; the exponent of the first does not matter. */
  lemma MultiplyIsFloor(price: uint64, exponent: int, adjustByPrice: uint64, adjustByExponent: int)
    requires WideMultiply(price, exponent, adjustByPrice, adjustByExponent) < TWO_64
    ensures var exact := price as real * adjustByPrice as real * Ten(adjustByExponent);
            var r := Multiply(price, exponent, adjustByPrice, adjustByExponent) as real;
            r <= exact < r + 1.0
  {
    hide Ten, Pow;
    var d := Mul(Mul(Decimal(price, exponent), Decimal(adjustByPrice, adjustByExponent)), Decimal(1, -exponent));
    assert d == Decimal(price * adjustByPrice, adjustByExponent);
    WholeIsFloor(d);
    assert (price * adjustByPrice) as real == price as real * adjustByPrice as real;
  }

  /** The product of two prices in units of the adjusted market. */
  function RealProduct(price: uint64, adjustByPrice: uint64, adjustByExponent: int): real {
    price as real * adjustByPrice as real * Ten(adjustByExponent)
  }

  /** A product is zero exactly if it is less than one unit of the adjusted market, or a multiple of 2^64. */
  lemma MultiplyZero(price: uint64, exponent: int, adjustByPrice: uint64, adjustByExponent: int)
    ensures WideMultiply(price, exponent, adjustByPrice, adjustByExponent) == 0
       <==> RealProduct(price, adjustByPrice, adjustByExponent) < 1.0
    ensures Multiply(price, exponent, adjustByPrice, adjustByExponent) == 0
       <==> WideMultiply(price, exponent, adjustByPrice, adjustByExponent) % TWO_64 == 0
  {
    hide Ten, Pow;
    var d := Mul(Mul(Decimal(price, exponent), Decimal(adjustByPrice, adjustByExponent)), Decimal(1, -exponent));
    assert d == Decimal(price * adjustByPrice, adjustByExponent);
    WholeIsFloor(d);
    assert (price * adjustByPrice) as real == price as real * adjustByPrice as real;
    FloorZero(Whole(d), Real(d));
    assert Real(d) == RealProduct(price, adjustByPrice, adjustByExponent);
  }

  lemma FloorZero(n: nat, x: real)
    requires n as real <= x < n as real + 1.0
    ensures n == 0 <==> x < 1.0
  {
  }

  // ---------------------------------------------------------------- division

  /** Numerator and denominator are those of the quotient in units of 16 decimals, up to a common factor. */
  lemma DivScaled(a: Decimal, b: Decimal) returns (k: real)
    ensures k > 0.0 && Real(a) * Ten(DIVISION_PRECISION) == DivTop(a, b) as real * k
    ensures Real(b) == DivBottom(a, b) as real * k
  {
    hide Ten, Pow;
    var e := a.exp - b.exp + DIVISION_PRECISION;
    var x, y := a.coef as real, b.coef as real;
    TenAdd(a.exp, DIVISION_PRECISION);
    MulCommutes(x, Ten(a.exp), Ten(DIVISION_PRECISION));
    if e >= 0 {
      k := Ten(b.exp);
      TenAdd(e, b.exp);
      TenIsPow(e);
      assert DivTop(a, b) as real == x * Ten(e);
      MulCommutes(x, Ten(e), Ten(b.exp));
    } else {
      k := Ten(a.exp + DIVISION_PRECISION);
      TenAdd(-e, a.exp + DIVISION_PRECISION);
      TenIsPow(-e);
      assert DivBottom(a, b) as real == y * Ten(-e);
      MulCommutes(y, Ten(-e), k);
    }
  }

  lemma TenIsPow(e: nat)
    ensures Ten(e) == Pow(10, e) as real
  {
  }

  function HalfUnit(): real {
    0.5 * Ten(-16)
  }

  /** A quotient is within half a unit of the 16th decimal of the exact one. */
  lemma DivNearest(a: Decimal, b: Decimal)
    requires b.coef > 0
    ensures var (x, y, q) := (Real(a), Real(b), Real(Div(a, b)));
            x - q * y <= HalfUnit() * y && q * y - x <= HalfUnit() * y
  {
    hide Ten, Pow, RoundDiv, DivTop, DivBottom;
    var k := DivScaled(a, b);
    BottomPositive(a, b);
    var top, bottom := DivTop(a, b), DivBottom(a, b);
    var n := RoundDiv(top, bottom);
    NearestReal(top, bottom);
    TenInverse(DIVISION_PRECISION);
    NearestScaled(top as real, bottom as real, n as real, k, Real(a), Real(b), Ten(DIVISION_PRECISION), Ten(-DIVISION_PRECISION));
  }

  lemma BottomPositive(a: Decimal, b: Decimal)
    requires b.coef > 0
    ensures DivBottom(a, b) > 0
  {
    var e := a.exp - b.exp + DIVISION_PRECISION;
    if e < 0 { MulMonotone(1, b.coef, Pow(10, -e)); }
  }

  lemma NearestReal(top: nat, bottom: nat)
    requires bottom > 0
    ensures var (t, b, n) := (top as real, bottom as real, RoundDiv(top, bottom) as real);
            2.0 * t - 2.0 * (n * b) <= b && 2.0 * (n * b) - 2.0 * t <= b
  {
    hide RoundDiv;
    RoundDivNearest(top, bottom);
    var n := RoundDiv(top, bottom);
    assert (n * bottom) as real == n as real * bottom as real;
  }

  lemma Scale(a: real, b: real, k: real)
    requires a <= b && k > 0.0
    ensures a * k <= b * k
  {
    if a < b { PositiveProduct(b - a, k); }
    Distribute(b - a, a, k);
  }

  /** Scaling the bound on a rounded quotient to the decimals divided. */
  lemma NearestScaled(top: real, bottom: real, n: real, k: real, x: real, y: real, p: real, i: real)
    requires k > 0.0 && i > 0.0 && p * i == 1.0 && x * p == top * k && y == bottom * k
    requires 2.0 * top - 2.0 * (n * bottom) <= bottom && 2.0 * (n * bottom) - 2.0 * top <= bottom
    ensures x - (n * i) * y <= 0.5 * i * y && (n * i) * y - x <= 0.5 * i * y
  {
    var gap := top - n * bottom;
    var scaled := gap * k * i;
    assert scaled == x - (n * i) * y by { GapScaled(top, bottom, n, k, x, y, p, i); }
    Scale(gap, 0.5 * bottom, k);
    Scale(gap * k, 0.5 * bottom * k, i);
    Scale(-gap, 0.5 * bottom, k);
    Scale(-gap * k, 0.5 * bottom * k, i);
    assert 0.5 * bottom * k * i == 0.5 * i * y;
    assert -gap * k * i == -scaled;
  }

  lemma GapScaled(top: real, bottom: real, n: real, k: real, x: real, y: real, p: real, i: real)
    requires p * i == 1.0 && x * p == top * k && y == bottom * k
    ensures (top - n * bottom) * k * i == x - (n * i) * y
  {
    Distribute(top - n * bottom, n * bottom, k);
    MulCommutes(n, bottom, k);
    Distribute((top - n * bottom) * k, n * y, i);
    MulCommutes(x, p, i);
    MulCommutes(n, y, i);
    MulCommutes(y, i, n);
    MulCommutes(n, i, y);
  }

  /** Half a unit of the 16th decimal of a quotient, in units of the result. */
  function Slack(exponent: int): (r: real)
    ensures r > 0.0
  {
    0.5 * Ten(-exponent - 16)
  }

  /** `r` differs from the quotient of `x` by `y`, times `unit`, by less than `1` and the slack below, or the slack above. */
  lemma QuotientBound(a: Decimal, b: Decimal, exponent: int)
    requires b.coef > 0
    ensures Real(b) > 0.0
    ensures var r := Whole(Mul(Div(a, b), Decimal(1, -exponent))) as real;
            var exact := Real(a) / Real(b) * Ten(-exponent);
            exact - r < 1.0 + Slack(exponent) && r - exact <= Slack(exponent)
  {
    hide Ten, Pow, Div, Whole;
    PositiveProduct(b.coef as real, Ten(b.exp));
    DivNearest(a, b);
    var x, y, q, t, h := Real(a), Real(b), Real(Div(a, b)), Ten(-exponent), HalfUnit();
    DivideBoth(x, y, q, h);
    MulExact(Div(a, b), Decimal(1, -exponent));
    WholeIsFloor(Mul(Div(a, b), Decimal(1, -exponent)));
    assert Real(Decimal(1, -exponent)) == t;
    TenAdd(-DIVISION_PRECISION, -exponent);
    assert h * t == Slack(exponent) by { MulCommutes(0.5, Ten(-DIVISION_PRECISION), t); }
    Scale(x / y, q + h, t);
    Scale(q, x / y + h, t);
    Distribute(q, h, t);
    Distribute(x / y, h, t);
  }

  lemma DivideBoth(x: real, y: real, q: real, h: real)
    requires y > 0.0 && x - q * y <= h * y && q * y - x <= h * y
    ensures x / y <= q + h && q <= x / y + h
  {
    var inverse := 1.0 / y;
    assert x / y == x * inverse && y * inverse == 1.0;
    Scale(x, q * y + h * y, inverse);
    Scale(q * y, x + h * y, inverse);
    MulCommutes(q, y, inverse);
    MulCommutes(h, y, inverse);
    Distribute(q * y, h * y, inverse);
    Distribute(x, h * y, inverse);
  }

  /** The exact quotient of two prices in units of the second. */
  function ExactQuotient(adjustByPrice: uint64, adjustByExponent: int, price: uint64, exponent: int): real
    requires price != 0
  {
    PositiveProduct(price as real, Ten(exponent));
    Real(Decimal(adjustByPrice, adjustByExponent)) / Real(Decimal(price, exponent)) * Ten(-exponent)
  }

  lemma DivideBound(adjustByPrice: uint64, adjustByExponent: int, price: uint64, exponent: int)
    requires price != 0 && WideDivide(adjustByPrice, adjustByExponent, price, exponent) < TWO_64
    ensures var r := Divide(adjustByPrice, adjustByExponent, price, exponent) as real;
            var exact := ExactQuotient(adjustByPrice, adjustByExponent, price, exponent);
            exact - r < 1.0 + Slack(exponent) && r - exact <= Slack(exponent)
  {
    hide Ten, Pow, Div, Whole, Mul;
    QuotientBound(Decimal(adjustByPrice, adjustByExponent), Decimal(price, exponent), exponent);
  }

  function ExactInverse(price: uint64, exponent: int): real
    requires price != 0
  {
    PositiveProduct(price as real, Ten(exponent));
    1.0 / Real(Decimal(price, exponent)) * Ten(-exponent)
  }

  lemma InvertBound(price: uint64, exponent: int)
    requires price != 0 && WideInvert(price, exponent) < TWO_64
    ensures var r := Invert(price, exponent) as real;
            var exact := ExactInverse(price, exponent);
            exact - r < 1.0 + Slack(exponent) && r - exact <= Slack(exponent)
  {
    hide Pow, Div, Whole, Mul;
    assert Real(Decimal(1, 0)) == 1.0 by { TenIsPow(0); PowZero(); }
    QuotientBound(Decimal(1, 0), Decimal(price, exponent), exponent);
  }

  // ---------------------------------------------------------------- results for all inputs

  ghost predicate NearWide(wide: nat, r: uint64, exact: real, below: real, above: real) {
    r == wide % 0x1_0000_0000_0000_0000 && exact - wide as real < below && wide as real - exact <= above
  }

  /** The low 64 bits of a number that is close to the exact one. */
  ghost predicate IsCut(r: uint64, exact: real, below: real, above: real) {
    exists wide: nat :: NearWide(wide, r, exact, below, above)
  }

  lemma MultiplyCut(price: uint64, exponent: int, adjustByPrice: uint64, adjustByExponent: int)
    ensures IsCut(Multiply(price, exponent, adjustByPrice, adjustByExponent),
                  RealProduct(price, adjustByPrice, adjustByExponent), 1.0, 0.0)
  {
    hide Ten, Pow;
    var d := Mul(Mul(Decimal(price, exponent), Decimal(adjustByPrice, adjustByExponent)), Decimal(1, -exponent));
    assert d == Decimal(price * adjustByPrice, adjustByExponent);
    WholeIsFloor(d);
    assert (price * adjustByPrice) as real == price as real * adjustByPrice as real;
    assert Real(d) == RealProduct(price, adjustByPrice, adjustByExponent);
    assert NearWide(Whole(d), Multiply(price, exponent, adjustByPrice, adjustByExponent), Real(d), 1.0, 0.0);
  }

  lemma DivideCut(adjustByPrice: uint64, adjustByExponent: int, price: uint64, exponent: int)
    ensures price == 0 ==> Divide(adjustByPrice, adjustByExponent, price, exponent) == 0
    ensures price != 0 ==> IsCut(Divide(adjustByPrice, adjustByExponent, price, exponent),
                                 ExactQuotient(adjustByPrice, adjustByExponent, price, exponent), 1.0 + Slack(exponent), Slack(exponent))
  {
    hide Ten, Pow, Div, Whole, Mul, Slack;
    if price != 0 {
      QuotientBound(Decimal(adjustByPrice, adjustByExponent), Decimal(price, exponent), exponent);
      assert NearWide(WideDivide(adjustByPrice, adjustByExponent, price, exponent), Divide(adjustByPrice, adjustByExponent, price, exponent),
                      ExactQuotient(adjustByPrice, adjustByExponent, price, exponent), 1.0 + Slack(exponent), Slack(exponent));
    }
  }

  lemma InvertCut(price: uint64, exponent: int)
    ensures price == 0 ==> Invert(price, exponent) == 0
    ensures price != 0 ==> IsCut(Invert(price, exponent), ExactInverse(price, exponent), 1.0 + Slack(exponent), Slack(exponent))
  {
    hide Pow, Div, Whole, Mul, Slack;
    if price != 0 {
      assert Real(Decimal(1, 0)) == 1.0 by { TenIsPow(0); PowZero(); }
      QuotientBound(Decimal(1, 0), Decimal(price, exponent), exponent);
      assert NearWide(WideInvert(price, exponent), Invert(price, exponent), ExactInverse(price, exponent),
                      1.0 + Slack(exponent), Slack(exponent));
    }
  }

  // ---------------------------------------------------------------- there and back

  /** The price times the exact quotient is the adjusting price, in units of the price's exponent. */
  lemma ExactProduct(adjustByPrice: uint64, adjustByExponent: int, price: uint64, exponent: int)
    requires price != 0
    ensures Real(Decimal(price, exponent)) * ExactQuotient(adjustByPrice, adjustByExponent, price, exponent)
         == adjustByPrice as real * Ten(adjustByExponent - exponent)
  {
    hide Ten;
    PositiveProduct(price as real, Ten(exponent));
    var x, y, t := Real(Decimal(adjustByPrice, adjustByExponent)), Real(Decimal(price, exponent)), Ten(-exponent);
    MulCommutes(y, x / y, t);
    assert y * (x / y) == x;
    TenAdd(adjustByExponent, -exponent);
    MulCommutes(adjustByPrice as real, Ten(adjustByExponent), t);
  }

  /**
   Dividing by a price and multiplying by it again recovers the adjusting price, in units of the price's
   exponent, up to the rounding of the product and that of the quotient times the price.
   */
  lemma DivideThenMultiply(adjustByPrice: uint64, adjustByExponent: int, price: uint64, exponent: int, anyExponent: int)
    requires price != 0 && WideDivide(adjustByPrice, adjustByExponent, price, exponent) < TWO_64
    requires WideMultiply(price, anyExponent, Divide(adjustByPrice, adjustByExponent, price, exponent), exponent) < TWO_64
    ensures var back := Multiply(price, anyExponent, Divide(adjustByPrice, adjustByExponent, price, exponent), exponent) as real;
            var target := adjustByPrice as real * Ten(adjustByExponent - exponent);
            var y := Real(Decimal(price, exponent));
            target - back < 1.0 + y * (1.0 + Slack(exponent)) && back - target <= y * Slack(exponent)
  {
    hide Ten, Pow, WideDivide, WideMultiply, Divide, Multiply, Slack, ExactQuotient;
    var r := Divide(adjustByPrice, adjustByExponent, price, exponent);
    DivideBound(adjustByPrice, adjustByExponent, price, exponent);
    MultiplyIsFloor(price, anyExponent, r, exponent);
    ExactProduct(adjustByPrice, adjustByExponent, price, exponent);
    PositiveProduct(price as real, Ten(exponent));
    var y, exact, slack := Real(Decimal(price, exponent)), ExactQuotient(adjustByPrice, adjustByExponent, price, exponent), Slack(exponent);
    assert price as real * r as real * Ten(exponent) == y * r as real by {
      MulCommutes(price as real, r as real, Ten(exponent));
      MulCommutes(price as real, Ten(exponent), r as real);
    }
    Scale(exact, r as real + (1.0 + slack), y);
    Scale(r as real, exact + slack, y);
    Distribute(r as real, 1.0 + slack, y);
    Distribute(exact, slack, y);
  }
}
