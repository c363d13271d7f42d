/** The pieces of `MarshalToSizedBuffer`: a buffer is filled from its end towards its front. */
module WireWriter {
  import opened Bits
  import opened Varint
  import opened MessageProperties

  lemma OneByteTag(number: nat, wireType: nat)
    requires 8 * number + wireType < 128
    ensures TagBytes(number, wireType) == [(8 * number + wireType) as byte]
  {
  }

  method PutByte(dAtA: array<byte>, end: nat, b: byte) returns (i: nat)
    requires 1 <= end <= dAtA.Length
    modifies dAtA
    ensures i == end - 1
    ensures dAtA[i..] == [b] + old(dAtA[end..]) && dAtA[..i] == old(dAtA[..i])
  {
    i := end - 1;
    dAtA[i] := b;
  }

  /** `copy(dAtA[i:], payload)` after making room for it before `end`. */
  method PutRaw(dAtA: array<byte>, end: nat, payload: seq<byte>) returns (i: nat)
    requires |payload| <= end <= dAtA.Length
    modifies dAtA
    ensures i == end - |payload|
    ensures dAtA[i..] == payload + old(dAtA[end..]) && dAtA[..i] == old(dAtA[..i])
  {
    i := end - |payload|;
    forall k | 0 <= k < |payload| {
      dAtA[i + k] := payload[k];
    }
  }

  /** A length prefix and a tag in front of `size` bytes already written at `start`. */
  method PutPrefix(dAtA: array<byte>, start: nat, number: nat, size: nat) returns (i: nat)
    requires 1 <= number < 16
    requires |TagBytes(number, 2)| + |VarintBytes(size)| <= start <= dAtA.Length
    modifies dAtA
    ensures i == start - |TagBytes(number, 2)| - |VarintBytes(size)|
    ensures dAtA[i..] == TagBytes(number, 2) + (VarintBytes(size) + old(dAtA[start..])) && dAtA[..i] == old(dAtA[..i])
  {
    hide VarintBytes;
    ghost var front := dAtA[..start];
    OneByteTag(number, 2);
    var at := EncodeVarint(dAtA, start, size);
    assert dAtA[..at - 1] == front[..at - 1];
    i := PutByte(dAtA, at, 8 * number + 2);
  }

  method PutBytes(dAtA: array<byte>, end: nat, number: nat, payload: seq<byte>) returns (i: nat)
    requires 1 <= number < 16
    requires |WriteBytes(number, payload)| <= end <= dAtA.Length
    modifies dAtA
    ensures i == end - |WriteBytes(number, payload)|
    ensures dAtA[i..] == WriteBytes(number, payload) + old(dAtA[end..]) && dAtA[..i] == old(dAtA[..i])
  {
    hide VarintBytes, TagBytes;
    ghost var front, back := dAtA[..end], dAtA[end..];
    var at := PutRaw(dAtA, end, payload);
    assert dAtA[..at] == front[..at];
    i := PutPrefix(dAtA, at, number, |payload|);
    assert dAtA[..i] == front[..i];
    assert VarintBytes(|payload|) + (payload + back) == (VarintBytes(|payload|) + payload) + back;
  }

  method PutNumber(dAtA: array<byte>, end: nat, number: nat, v: nat) returns (i: nat)
    requires 1 <= number < 16
    requires |WriteNumber(number, v)| <= end <= dAtA.Length
    modifies dAtA
    ensures i == end - |WriteNumber(number, v)|
    ensures dAtA[i..] == WriteNumber(number, v) + old(dAtA[end..]) && dAtA[..i] == old(dAtA[..i])
  {
    hide VarintBytes;
    ghost var front, back := dAtA[..end], dAtA[end..];
    OneByteTag(number, 0);
    var at := EncodeVarint(dAtA, end, v);
    assert dAtA[..at - 1] == front[..at - 1];
    i := PutByte(dAtA, at, 8 * number);
    assert dAtA[..i] == front[..i];
  }
}
