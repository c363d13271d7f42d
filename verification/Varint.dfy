/**
 Base 128 varints (Protocol Buffers Encoding, section "Base 128 Varints"): the writer that fills a
 buffer at a given offset, the hand-unrolled reader, and the size function `sov`.
 */
module Varint {
  import opened Arith
  import opened Bits

  datatype Error =
    | IntOverflow | UnexpectedEOF | InvalidLength | UnexpectedEndOfGroup | IllegalWireType
    | EndGroupForNonGroup | IllegalTag | WrongWireType | BadTime

  datatype Result<+T> = Ok(value: T) | Err(error: Error)

  /** A varint found at the front of some bytes: its unbounded base-128 value and its length. */
  datatype Raw = Raw(value: nat, length: nat)

  // ---------------------------------------------------------------- specification

  /** The value of little-endian groups of seven bits; continuation bits are ignored. */
  function Base128(s: seq<byte>): nat {
    if s == [] then 0 else s[0] % 128 + 128 * Base128(s[1..])
  }

  /** How many bytes at the front of `s` announce another byte after them. */
  function Continuations(s: seq<byte>): (n: nat)
    ensures n <= |s|
    ensures forall k :: 0 <= k < n ==> s[k] >= 128
    ensures n < |s| ==> s[n] < 128
  {
    if s == [] || s[0] < 128 then 0 else 1 + Continuations(s[1..])
  }

  /** The first byte without a continuation bit ends the varint, and it must be among the first ten. */
  function ReadVarint(s: seq<byte>): (r: Result<Raw>)
    ensures r.Ok? ==> 1 <= r.value.length <= |s| && r.value.length <= 10
  {
    var n := Continuations(s);
    if n >= 10 then Err(IntOverflow)
    else if n == |s| then Err(UnexpectedEOF)
    else Ok(Raw(Base128(s[..n + 1]), n + 1))
  }

  ghost predicate IsVarint(s: seq<byte>) {
    ReadVarint(s).Ok? && ReadVarint(s).value.length == |s|
  }

  /** The canonical (shortest) encoding. */
  function VarintBytes(v: nat): (s: seq<byte>)
    ensures |s| >= 1
  {
    if v < 128 then [v] else [v % 128 + 128] + VarintBytes(v / 128)
  }

  /** The number of bytes `encodeVarint` will need, computed from the bit length. */
  function Sov(x: nat): nat {
    (BitLen(Or(x, 1)) + 6) / 7
  }

  // ---------------------------------------------------------------- properties

  lemma {:induction false} VarintBytesShape(v: nat)
    ensures Base128(VarintBytes(v)) == v
    ensures Continuations(VarintBytes(v)) == |VarintBytes(v)| - 1
  {
    hide Base128, Continuations;
    if v < 128 {
      SingleByte(v);
    } else {
      VarintBytesShape(v / 128);
      GroupInFront(v % 128 + 128, VarintBytes(v / 128));
    }
  }

  lemma SingleByte(b: byte)
    requires b < 128
    ensures Base128([b]) == b && Continuations([b]) == 0
  {
    assert [b][1..] == [];
  }

  lemma GroupInFront(b: byte, rest: seq<byte>)
    requires b >= 128 && rest != []
    ensures Base128([b] + rest) == b % 128 + 128 * Base128(rest) && Continuations([b] + rest) == 1 + Continuations(rest)
  {
    assert ([b] + rest)[1..] == rest;
  }

  lemma {:induction false} VarintLength(v: nat, k: nat)
    requires v < Pow2(7 * k) && k > 0
    ensures |VarintBytes(v)| <= k
  {
    if v >= 128 {
      Pow2Seven();
      assert k > 1;
      Pow2Add(7, 7 * (k - 1));
      VarintLength(v / 128, k - 1);
    }
  }

  lemma {:induction false} OrOne(x: nat)
    ensures Or(x, 1) == if x % 2 == 1 then x else x + 1
  {
  }

  /** `sov` predicts the length of the canonical encoding exactly. */
  lemma {:induction false} SovIsLength(x: nat)
    ensures Sov(x) == |VarintBytes(x)|
  {
    OrOne(x);
    if x < 128 {
      BitLenSmall(Or(x, 1), 7);
    } else {
      var y := Or(x, 1);
      BitLenShift7(y);
      SovIsLength(x / 128);
      OrOne(x / 128);
      BitLenOr(x / 128);
      assert y / 128 == x / 128;
    }
  }

  lemma {:induction false} BitLenSmall(x: nat, k: nat)
    requires 0 < x < Pow2(k)
    ensures 1 <= BitLen(x) <= k
  {
    if x > 1 { BitLenSmall(x / 2, k - 1); }
  }

  /** Setting the lowest bit of a positive number does not change its bit length. */
  lemma BitLenOr(x: nat)
    requires x > 0
    ensures BitLen(Or(x, 1)) == BitLen(x)
  {
    OrOne(x);
    assert Or(x, 1) / 2 == x / 2;
  }

  lemma TenBytes(v: nat)
    requires v < TWO_64
    ensures |VarintBytes(v)| <= 10
  {
    Pow2Words(64);
    Pow2Add(64, 6);
    VarintLength(v, 10);
  }

  /** Decoding undoes encoding for every 64-bit value, whatever bytes follow. */
  lemma VarintRoundTrip(v: nat, rest: seq<byte>)
    requires v < TWO_64
    ensures ReadVarint(VarintBytes(v) + rest) == Ok(Raw(v, |VarintBytes(v)|))
    ensures |VarintBytes(v)| <= 10
  {
    hide VarintBytes, Continuations;
    TenBytes(v);
    VarintBytesShape(v);
    var s := VarintBytes(v);
    ContinuationsPrefix(s, rest);
    assert (s + rest)[..|s|] == s;
  }

  lemma {:induction false} ContinuationsPrefix(s: seq<byte>, rest: seq<byte>)
    requires Continuations(s) < |s|
    ensures Continuations(s + rest) == Continuations(s)
  {
    if s[0] >= 128 {
      ContinuationsPrefix(s[1..], rest);
      assert (s + rest)[1..] == s[1..] + rest;
    }
  }

  /** A complete varint is read the same way whatever follows it. */
  lemma ReadVarintPrefix(s: seq<byte>, rest: seq<byte>)
    requires ReadVarint(s).Ok?
    ensures ReadVarint(s + rest) == ReadVarint(s)
  {
    ContinuationsPrefix(s, rest);
    var n := Continuations(s);
    assert (s + rest)[..n + 1] == s[..n + 1];
  }

  lemma {:induction false} Base128Snoc(s: seq<byte>, b: byte)
    ensures Base128(s + [b]) == Base128(s) + (b % 128) * Pow2(7 * |s|)
  {
    if s == [] {
      assert [b][1..] == [];
    } else {
      Base128Snoc(s[1..], b);
      assert (s + [b])[1..] == s[1..] + [b];
      Pow2Seven();
      Pow2Add(7, 7 * (|s| - 1));
      var p := Pow2(7 * (|s| - 1));
      assert 128 * ((b % 128) * p) == (b % 128) * (128 * p);
    }
  }

  lemma {:induction false} Base128Bound(s: seq<byte>)
    ensures Base128(s) < Pow2(7 * |s|)
  {
    if s != [] {
      Base128Bound(s[1..]);
      Pow2Seven();
      Pow2Add(7, 7 * (|s| - 1));
    }
  }

  lemma {:induction false} ContinuationsSkip(s: seq<byte>, n: nat)
    requires n <= |s| && forall k :: 0 <= k < n ==> s[k] >= 128
    ensures Continuations(s) == n + Continuations(s[n..])
  {
    if n > 0 {
      ContinuationsSkip(s[1..], n - 1);
      assert s[1..][n - 1..] == s[n..];
    } else {
      assert s[0..] == s;
    }
  }

  /** What `n` continuation bytes at the front, and the byte after them, say about the varint. */
  lemma ReadVarintAfter(s: seq<byte>, n: nat)
    requires n <= |s| && forall k :: 0 <= k < n ==> s[k] >= 128
    ensures n >= 10 ==> ReadVarint(s) == Err(IntOverflow)
    ensures n < 10 && n == |s| ==> ReadVarint(s) == Err(UnexpectedEOF)
    ensures n < 10 && n < |s| && s[n] < 128 ==> ReadVarint(s) == Ok(Raw(Base128(s[..n + 1]), n + 1))
  {
    ContinuationsSkip(s, n);
  }

  // ---------------------------------------------------------------- the writer and the reader

  /** Writes `v` so that it ends just before `offset`, and returns where it starts. */
  method EncodeVarint(dAtA: array<byte>, offset: nat, v: nat) returns (base: nat)
    requires |VarintBytes(v)| <= offset <= dAtA.Length
    modifies dAtA
    ensures base == offset - |VarintBytes(v)|
    ensures dAtA[base..] == VarintBytes(v) + old(dAtA[offset..]) && dAtA[..base] == old(dAtA[..base])
  {
    hide Sov, Or;
    ghost var back := dAtA[offset..];
    SovIsLength(v);
    base := offset - Sov(v);
    ghost var front := dAtA[..base];
    var at, rest := base, v;
    while rest >= 128
      invariant base <= at && at + |VarintBytes(rest)| == offset
      invariant dAtA[..at] + VarintBytes(rest) == front + VarintBytes(v)
      invariant dAtA[offset..] == back
    {
      ghost var before := dAtA[..at];
      LowBitsOr(rest % 128);
      dAtA[at] := Or(rest % 128, 0x80);
      at := at + 1;
      assert dAtA[..at] == before + [rest % 128 + 128];
      assert before + ([rest % 128 + 128] + VarintBytes(rest / 128)) == dAtA[..at] + VarintBytes(rest / 128);
      rest := rest / 128;
    }
    ghost var before := dAtA[..at];
    dAtA[at] := rest;
    assert dAtA[..offset] == before + [rest];
    assert dAtA[base..offset] == dAtA[..offset][base..];
    assert dAtA[base..] == dAtA[base..offset] + back;
    assert dAtA[..base] == dAtA[..offset][..base];
  }

  lemma LowBitsOr(x: nat)
    requires x < 128
    ensures Or(x, 0x80) == x + 128
  {
    Pow2Seven();
    OrDisjoint(x, 1, 7);
  }

  /** The bits of `chunk << shift` that a word of `width` bits keeps do not overlap the lower ones. */
  lemma OrShifted(acc: nat, chunk: nat, shift: nat, width: nat)
    requires acc < Pow2(shift) && shift <= width
    ensures var kept := chunk * Pow2(shift) % Pow2(width);
            Or(acc, kept) == acc + kept < Pow2(width)
  {
    Pow2Add(shift, width - shift);
    ModScale(chunk, Pow2(shift), Pow2(width - shift));
    OrDisjoint(acc, chunk % Pow2(width - shift), shift);
  }

  /** What a word of 32 or 64 bits keeps of a value. */
  function Truncate(x: nat, width: nat): nat {
    if width == 32 then x % 0x1_0000_0000 else Word64(x)
  }

  lemma TruncateIsMod(width: nat)
    requires width == 32 || width == 64
    ensures forall x: nat :: Truncate(x, width) == x % Pow2(width)
  {
    Pow2Words(width);
  }

  /** Reads the varint at `index` into a word of `width` bits (32 or 64 in the callers). */
  method DecodeVarint(dAtA: seq<byte>, index: nat, width: nat) returns (r: Result<nat>, iNdEx: nat)
    requires index <= |dAtA| && (width == 32 || width == 64)
    ensures match ReadVarint(dAtA[index..])
            case Err(e) => r == Err(e)
            case Ok(raw) => r == Ok(Truncate(raw.value, width)) && iNdEx == index + raw.length <= |dAtA|
  {
    TruncateIsMod(width);
    ghost var s := dAtA[index..];
    iNdEx := index;
    var word, shift := 0, 0;
    DivModUnique(0, Pow2(width), 0, 0);
    assert Base128(s[..0]) == 0;
    while true
      invariant index <= iNdEx <= |dAtA| && shift == 7 * (iNdEx - index)
      invariant forall k :: 0 <= k < iNdEx - index ==> s[k] >= 128
      invariant word == Base128(s[..iNdEx - index]) % Pow2(width)
      decreases 70 - shift
    {
      ghost var n := iNdEx - index;
      ReadVarintAfter(s, n);
      if shift >= 64 {
        return Err(IntOverflow), iNdEx;
      }
      if iNdEx >= |dAtA| {
        return Err(UnexpectedEOF), iNdEx;
      }
      var b := dAtA[iNdEx];
      assert b == s[n];
      iNdEx := iNdEx + 1;
      word := Accumulate(s[..n], b, word, shift, width);
      assert s[..n + 1] == s[..n] + [b];
      if b < 0x80 {
        return Ok(word), iNdEx;
      }
      shift := shift + 7;
    }
  }

  /** One iteration of the reading loop: the word keeps the low bits of the unbounded value. */
  method Accumulate(ghost s: seq<byte>, b: byte, word: nat, shift: nat, width: nat) returns (next: nat)
    requires word == Base128(s) % Pow2(width) && shift == 7 * |s|
    ensures next == Base128(s + [b]) % Pow2(width)
  {
    Base128Snoc(s, b);
    Base128Bound(s);
    AccumulateBits(Base128(s), b % 128, shift, width);
    next := Or(word, b % 128 * Pow2(shift) % Pow2(width));
  }

  lemma AccumulateBits(x: nat, chunk: nat, shift: nat, width: nat)
    requires x < Pow2(shift)
    ensures Or(x % Pow2(width), chunk * Pow2(shift) % Pow2(width)) == (x + chunk * Pow2(shift)) % Pow2(width)
  {
    var m, y := Pow2(width), chunk * Pow2(shift);
    if shift <= width {
      OrShifted(x, chunk, shift, width);
      Pow2Add(shift, width - shift);
      MulMonotone(1, Pow2(width - shift), Pow2(shift));
      DivModUnique(x, m, 0, x);
      ModAbsorb(y, x, m);
      DivModUnique(x + y % m, m, 0, x + y % m);
    } else {
      Pow2Add(width, shift - width);
      var q := Pow2(shift - width);
      assert y == m * (chunk * q) by { MulAssociate(m, q, chunk); }
      DivModUnique(y, m, chunk * q, 0);
      ModAbsorb(y, x, m);
    }
  }
}
