/** Numbers as decimal and hexadecimal text, and powers of ten. */
module Numerals {
  import opened Arith

  function Pow(base: nat, n: nat): (p: nat)
    requires base > 0
    ensures p > 0
  {
    if n == 0 then 1 else base * Pow(base, n - 1)
  }

  lemma {:induction false} PowAdd(base: nat, m: nat, n: nat)
    requires base > 0
    ensures Pow(base, m + n) == Pow(base, m) * Pow(base, n)
  {
    if m > 0 {
      PowAdd(base, m - 1, n);
      MulAssociate(base, Pow(base, m - 1), Pow(base, n));
    }
  }

  // ---------------------------------------------------------------- numerals in any base

  predicate Digits(base: nat, ds: seq<nat>) {
    forall i :: 0 <= i < |ds| ==> ds[i] < base
  }

  /** The value of digits, the most significant first. */
  function Value(base: nat, ds: seq<nat>): nat {
    if ds == [] then 0 else base * Value(base, ds[..|ds| - 1]) + ds[|ds| - 1]
  }

  /** The digits without leading zeros; none for zero. */
  function Minimal(base: nat, v: nat): seq<nat>
    requires base > 1
  {
    if v == 0 then [] else
      DivBelow(v, base);
      Minimal(base, v / base) + [v % base]
  }

  /** The `n` lowest digits. */
  function Fixed(base: nat, v: nat, n: nat): seq<nat>
    requires base > 1
  {
    if n == 0 then [] else
      DivBelow(v, base);
      Fixed(base, v / base, n - 1) + [v % base]
  }

  lemma DivBelow(v: nat, base: nat)
    requires base > 1
    ensures 0 <= v / base && v % base < base && v == base * (v / base) + v % base
    ensures v > 0 ==> v / base < v
  {
    var q, r := v / base, v % base;
    if q < 0 { MulMonotone(q, -1, base); }
    if v > 0 && q >= v {
      MulMonotone(v, q, base);
      MulMonotone(2, base, v);
    }
  }

  lemma {:induction false} MinimalValue(base: nat, v: nat)
    requires base > 1
    ensures Value(base, Minimal(base, v)) == v && Digits(base, Minimal(base, v))
    decreases v
  {
    if v > 0 {
      DivBelow(v, base);
      MinimalValue(base, v / base);
      assert Minimal(base, v)[..|Minimal(base, v)| - 1] == Minimal(base, v / base);
    }
  }

  lemma QuotientBelow(base: nat, v: nat, n: nat)
    requires base > 1 && n > 0 && v < Pow(base, n)
    ensures 0 <= v / base < Pow(base, n - 1)
  {
    DivBelow(v, base);
    if v / base >= Pow(base, n - 1) { MulMonotone(Pow(base, n - 1), v / base, base); }
  }

  lemma {:induction false} FixedValue(base: nat, v: nat, n: nat)
    requires base > 1 && v < Pow(base, n)
    ensures Value(base, Fixed(base, v, n)) == v && |Fixed(base, v, n)| == n && Digits(base, Fixed(base, v, n))
    decreases n
  {
    if n > 0 {
      DivBelow(v, base);
      QuotientBelow(base, v, n);
      FixedValue(base, v / base, n - 1);
      assert Fixed(base, v, n)[..n - 1] == Fixed(base, v / base, n - 1);
    } else {
      assert Pow(base, 0) == 1;
    }
  }

  lemma {:induction false} ValueConcat(base: nat, a: seq<nat>, b: seq<nat>)
    requires base > 0
    ensures Value(base, a + b) == Value(base, a) * Pow(base, |b|) + Value(base, b)
    decreases |b|
  {
    if b == [] {
      assert a + b == a;
    } else {
      var rest := b[..|b| - 1];
      assert (a + b)[..|a + b| - 1] == a + rest;
      ValueConcat(base, a, rest);
      MulAssociate(base, Value(base, a), Pow(base, |rest|));
      MulDistribute(base, Value(base, a) * Pow(base, |rest|), Value(base, rest));
      MulAssociate(Value(base, a), base, Pow(base, |rest|));
    }
  }

  function Zeros(n: nat): (zs: seq<nat>)
    ensures |zs| == n && forall z | z in zs :: z == 0
  {
    seq(n, _ => 0)
  }

  /** The digits of a number that has at most `n` of them, filled up with zeros at the front. */
  lemma {:induction false} PaddedIsFixed(base: nat, v: nat, n: nat)
    requires base > 1 && v < Pow(base, n)
    ensures |Minimal(base, v)| <= n && Zeros(n - |Minimal(base, v)|) + Minimal(base, v) == Fixed(base, v, n)
    decreases n
  {
    if n == 0 {
    } else {
      DivBelow(v, base);
      QuotientBelow(base, v, n);
      PaddedIsFixed(base, v / base, n - 1);
      if v == 0 {
        assert v / base == 0 && v % base == 0;
        assert Zeros(n) == Zeros(n - 1) + [0];
      } else {
        DivBelow(v, base);
        var m := Minimal(base, v / base);
        assert Zeros(n - (|m| + 1)) + (m + [v % base]) == (Zeros(n - 1 - |m|) + m) + [v % base];
      }
    }
  }

  // ---------------------------------------------------------------- hexadecimal text of bytes

  function HexChar(d: nat): char
    requires d < 16
  {
    if d < 10 then '0' + d as char else 'a' + (d - 10) as char
  }

  function HexOf(bytes: seq<nat>): string
    requires Digits(256, bytes)
  {
    if bytes == [] then "" else [HexChar(bytes[0] / 16), HexChar(bytes[0] % 16)] + HexOf(bytes[1..])
  }

  function HexDigit(c: char): nat {
    if '0' <= c <= '9' then (c - '0') as int
    else if 'a' <= c <= 'f' then (c - 'a') as int + 10
    else 16
  }

  /** The bytes that hexadecimal text stands for; digits must be lower case. */
  function Unhex(s: string): seq<nat> {
    if |s| < 2 then [] else [16 * HexDigit(s[0]) + HexDigit(s[1])] + Unhex(s[2..])
  }

  /** The sixteen digits. */
  lemma HexDigitsAre(d: nat)
    requires d < 16
    ensures HexChar(d) == "0123456789abcdef"[d] && HexDigit("0123456789abcdef"[d]) == d
  {
  }

  lemma HexCharReadBack(d: nat)
    requires d < 16
    ensures HexDigit(HexChar(d)) == d
  {
  }

  lemma {:induction false} HexReadBack(bytes: seq<nat>)
    requires Digits(256, bytes)
    ensures |HexOf(bytes)| == 2 * |bytes| && Unhex(HexOf(bytes)) == bytes
  {
    if bytes != [] {
      HexReadBack(bytes[1..]);
      UnhexByte(bytes[0], HexOf(bytes[1..]));
    }
  }

  lemma UnhexStep(x: char, y: char, rest: string)
    ensures Unhex([x, y] + rest) == [16 * HexDigit(x) + HexDigit(y)] + Unhex(rest)
  {
    hide HexDigit;
    assert ([x, y] + rest)[2..] == rest;
  }

  lemma UnhexByte(b: nat, rest: string)
    requires b < 256
    ensures Unhex([HexChar(b / 16), HexChar(b % 16)] + rest) == [b] + Unhex(rest)
  {
    hide HexDigit, HexChar, Unhex;
    UnhexStep(HexChar(b / 16), HexChar(b % 16), rest);
    HexCharReadBack(b / 16);
    HexCharReadBack(b % 16);
  }

  /** A number in a given number of bytes, big-endian, as hexadecimal text. */
  function ToHex(v: nat, byteSize: nat): string
    requires v < Pow(256, byteSize)
  {
    FixedValue(256, v, byteSize);
    HexOf(Fixed(256, v, byteSize))
  }

  lemma ToHexDecodes(v: nat, byteSize: nat)
    requires v < Pow(256, byteSize)
    ensures |ToHex(v, byteSize)| == 2 * byteSize && Value(256, Unhex(ToHex(v, byteSize))) == v
  {
    FixedValue(256, v, byteSize);
    HexReadBack(Fixed(256, v, byteSize));
  }

  // ---------------------------------------------------------------- decimal text

  predicate IsDigit(c: char) {
    '0' <= c <= '9'
  }

  predicate AllDigits(s: string) {
    forall c | c in s :: IsDigit(c)
  }

  function DecimalDigits(s: string): (ds: seq<nat>)
    requires AllDigits(s)
    ensures |ds| == |s|
  {
    seq(|s|, i requires 0 <= i < |s| => assert s[i] in s; (s[i] - '0') as int)
  }

  function ParseDecimal(s: string): nat
    requires AllDigits(s)
  {
    Value(10, DecimalDigits(s))
  }

  function DigitChar(d: nat): char
    requires d < 10
  {
    '0' + d as char
  }

  function DecimalText(ds: seq<nat>): (s: string)
    requires Digits(10, ds)
    ensures |s| == |ds| && AllDigits(s) && DecimalDigits(s) == ds
  {
    seq(|ds|, i requires 0 <= i < |ds| => DigitChar(ds[i]))
  }

  /** A natural number as it is printed: zero is one digit. */
  function Printed(v: nat): (s: string)
    ensures AllDigits(s) && ParseDecimal(s) == v
  {
    MinimalValue(10, v);
    if v == 0 then (assert Value(10, [0]) == 0; DecimalText([0])) else DecimalText(Minimal(10, v))
  }
}
