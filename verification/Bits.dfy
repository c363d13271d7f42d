/** Unsigned machine arithmetic on naturals: powers of two, bitwise or, bit length and two's complement. */
module Bits {

  const TWO_31: int := 0x8000_0000
  const TWO_32: int := 0x1_0000_0000
  const TWO_63: int := 0x8000_0000_0000_0000
  const TWO_64: int := 0x1_0000_0000_0000_0000

  type byte = b: int | 0 <= b < 256
  type uint32 = x: int | 0 <= x < 0x1_0000_0000
  type uint64 = x: int | 0 <= x < 0x1_0000_0000_0000_0000

  function Pow2(n: nat): (p: nat)
    ensures p > 0
  {
    if n == 0 then 1 else 2 * Pow2(n - 1)
  }

  /** Bitwise or, one bit at a time. */
  function Or(a: nat, b: nat): nat
    decreases a + b
  {
    if a == 0 then b
    else if b == 0 then a
    else (if a % 2 == 1 || b % 2 == 1 then 1 else 0) + 2 * Or(a / 2, b / 2)
  }

  /** The position of the highest set bit, as `bits.Len64` counts it. */
  function BitLen(x: nat): nat {
    if x == 0 then 0 else 1 + BitLen(x / 2)
  }

  /** The low 64 bits. */
  function Word64(x: nat): nat {
    x % 0x1_0000_0000_0000_0000
  }

  /** A 64-bit pattern read as a signed integer. */
  function ToInt64(x: nat): (r: int)
    requires x < TWO_64
  {
    if x < TWO_63 then x else x - TWO_64
  }

  /** Conversion of an unsigned integer to a signed 32-bit one: the low 32 bits in two's complement. */
  function ToInt32(x: nat): int {
    var low := x % TWO_32;
    if low < TWO_31 then low else low - TWO_32
  }

  /** Addition of two signed 64-bit integers with wrap-around. */
  function AddInt64(a: int, b: int): int
    requires -TWO_63 <= a < TWO_63 && -TWO_63 <= b < TWO_63
  {
    if a + b >= TWO_63 then a + b - TWO_64
    else if a + b < -TWO_63 then a + b + TWO_64
    else a + b
  }

  lemma {:induction false} Pow2Add(m: nat, n: nat)
    ensures Pow2(m + n) == Pow2(m) * Pow2(n)
  {
    if m > 0 {
      Pow2Add(m - 1, n);
      Doubled(Pow2(m - 1), Pow2(n));
    } else {
      assert Pow2(0) == 1;
    }
  }

  lemma Doubled(a: nat, b: nat)
    ensures 2 * (a * b) == (2 * a) * b
  {
  }

  lemma Pow2Seven()
    ensures Pow2(7) == 128
  {
  }

  /** The sizes of machine words. */
  lemma Pow2Words(width: nat)
    ensures width == 32 ==> Pow2(width) == TWO_32
    ensures width == 63 ==> Pow2(width) == TWO_63
    ensures width == 64 ==> Pow2(width) == TWO_64
    decreases width
  {
    hide Pow2;
    if width == 32 {
      Pow2Byte(8);
      Pow2Add(8, 8);
      Pow2Add(16, 16);
    } else if width == 63 || width == 64 {
      Pow2Words(32);
      Pow2Add(32, 32);
      Pow2Half(64);
    }
  }

  lemma Pow2Byte(k: nat)
    requires k == 8
    ensures Pow2(k) == 256
  {
    Pow2Seven();
  }

  lemma Pow2Half(k: nat)
    requires k > 0
    ensures Pow2(k) == 2 * Pow2(k - 1)
  {
  }

  /** Bits that do not overlap add up: the accumulating `|=` of every varint loop is a sum. */
  lemma {:induction false} OrDisjoint(a: nat, c: nat, k: nat)
    requires a < Pow2(k)
    ensures Or(a, c * Pow2(k)) == a + c * Pow2(k)
  {
    if a > 0 && c > 0 {
      var p := Pow2(k - 1);
      assert c * Pow2(k) == 2 * (c * p);
      assert c * p > 0;
      OrDisjoint(a / 2, c, k - 1);
    }
  }

  /** Seven bits at a time: what `sov` relies on. */
  lemma BitLenShift7(x: nat)
    requires x >= 128
    ensures BitLen(x) == 7 + BitLen(x / 128)
  {
    BitLenShift2(x);
    BitLenShift2(x / 4);
    BitLenShift2(x / 16);
    assert x / 4 / 4 == x / 16 && x / 16 / 4 == x / 64 && x / 64 / 2 == x / 128;
  }

  lemma BitLenShift2(x: nat)
    requires x >= 2
    ensures BitLen(x) == 2 + BitLen(x / 4)
  {
    assert BitLen(x) == 1 + BitLen(x / 2);
    assert x / 2 / 2 == x / 4;
  }
}
