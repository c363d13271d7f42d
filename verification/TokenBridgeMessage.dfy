/** The wire codec of the pending bridge deposit report: two byte strings. */
module TokenBridgeMessage {
  import opened Bits
  import opened Options
  import opened Varint
  import opened Wire
  import opened WireProperties
  import opened MessageProperties
  import opened WireWriter

  datatype Report = Report(queryData: seq<byte>, value: seq<byte>)

  // ---------------------------------------------------------------- specification

  const SCHEMA: Schema<Report> := Schema(
    (number: int) => if number == 1 || number == 2 then Bytes else Unknown,
    (m: Report, number: int, payload: seq<byte>) =>
      Ok(if number == 1 then m.(queryData := payload) else m.(value := payload)),
    (m: Report, number: int, v: nat) => m)

  function OptionalBytes(number: nat, payload: seq<byte>): seq<byte> {
    if payload == [] then [] else WriteBytes(number, payload)
  }

  /** Fields are written in order, and empty ones are not written at all. */
  function EncodeReport(m: Report): seq<byte> {
    OptionalBytes(1, m.queryData) + OptionalBytes(2, m.value)
  }

  // ---------------------------------------------------------------- the generated code

  class GetPendingDepositReportResponse {
    var queryData: seq<byte>
    var value: seq<byte>

    ghost function Message(): Report
      reads this
    {
      Report(queryData, value)
    }

    constructor ()
      ensures Message() == Report([], [])
    {
      queryData, value := [], [];
    }

    method Size() returns (n: nat)
      ensures n == |EncodeReport(Message())|
    {
      hide VarintBytes;
      n := 0;
      var l := |queryData|;
      if l > 0 {
        SovIsLength(l);
        OneByteTag(1, 2);
        n := n + 1 + l + Sov(l);
      }
      l := |value|;
      if l > 0 {
        SovIsLength(l);
        OneByteTag(2, 2);
        n := n + 1 + l + Sov(l);
      }
    }

    /** Fills the end of the buffer and returns how many bytes it took. */
    method MarshalToSizedBuffer(dAtA: array<byte>) returns (n: nat)
      requires |EncodeReport(Message())| <= dAtA.Length
      modifies dAtA
      ensures n == |EncodeReport(Message())|
      ensures dAtA[dAtA.Length - n..] == EncodeReport(Message())
      ensures dAtA[..dAtA.Length - n] == old(dAtA[..dAtA.Length - n])
    {
      hide WriteBytes;
      var i := dAtA.Length;
      assert dAtA[i..] == [];
      if |value| > 0 {
        i := PutBytes(dAtA, i, 2, value);
      }
      ghost var front := dAtA[..i];
      if |queryData| > 0 {
        i := PutBytes(dAtA, i, 1, queryData);
      }
      assert dAtA[..i] == front[..i];
      n := dAtA.Length - i;
    }

    method Marshal() returns (dAtA: seq<byte>)
      ensures dAtA == EncodeReport(Message())
    {
      var size := Size();
      var buffer := new byte[size];
      var n := MarshalToSizedBuffer(buffer);
      dAtA := buffer[..n];
    }

    /** One iteration of the parsing loop. */
    method UnmarshalField(dAtA: seq<byte>, preIndex: nat) returns (err: Option<Error>, iNdEx: nat)
      requires preIndex < |dAtA| < TWO_63
      modifies this
      ensures match ParseField(SCHEMA, old(Message()), dAtA[preIndex..], preIndex)
              case Err(e) => err == Some(e)
              case Ok(f) => err == None && Message() == f.message && iNdEx == preIndex + f.length
    {
      hide ReadTag, ReadLength, SkipFrom;
      iNdEx := preIndex;
      var tag := DecodeTag(dAtA, preIndex);
      if tag.Err? { return Some(tag.error), iNdEx; }
      if tag.value.number == 1 || tag.value.number == 2 {
        if tag.value.wireType != 2 { return Some(WrongWireType), iNdEx; }
        var at := preIndex + tag.value.length;
        assert dAtA[preIndex..][at - preIndex..] == dAtA[at..];
        var postIndex, start := DecodeLength(dAtA, at);
        if postIndex.Err? { return Some(postIndex.error), iNdEx; }
        SliceWithin(dAtA, at, start, postIndex.value);
        if tag.value.number == 1 {
          queryData := dAtA[start..postIndex.value];
        } else {
          value := dAtA[start..postIndex.value];
        }
        return None, postIndex.value;
      } else {
        var next := SkipUnknown(dAtA, preIndex);
        if next.Err? { return Some(next.error), iNdEx; }
        return None, next.value;
      }
    }

    method Unmarshal(dAtA: seq<byte>) returns (err: Option<Error>)
      requires |dAtA| < TWO_63
      modifies this
      ensures match Parse(SCHEMA, old(Message()), dAtA, 0)
              case Err(e) => err == Some(e)
              case Ok(m) => err == None && Message() == m
    {
      hide Parse, ParseField, ParseFrom;
      var iNdEx := 0;
      ParseEnds(SCHEMA, Message(), dAtA);
      while iNdEx < |dAtA|
        invariant iNdEx <= |dAtA|
        invariant ParseFrom(SCHEMA, old(Message()), dAtA, 0) == ParseFrom(SCHEMA, Message(), dAtA, iNdEx)
      {
        ParseStep(SCHEMA, Message(), dAtA, iNdEx);
        var e, next := UnmarshalField(dAtA, iNdEx);
        if e.Some? { return e; }
        iNdEx := next;
      }
      ParseEnds(SCHEMA, Message(), dAtA);
      return None;
    }
  }

  // ---------------------------------------------------------------- properties

  lemma ParseOptionalBytes(m: Report, number: nat, payload: seq<byte>, base: nat)
    requires number == 1 || number == 2
    requires base + |OptionalBytes(number, payload)| < TWO_63
    requires payload == [] ==> m == (if number == 1 then m.(queryData := []) else m.(value := []))
    ensures Parse(SCHEMA, m, OptionalBytes(number, payload), base) ==
            Ok(if number == 1 then m.(queryData := payload) else m.(value := payload))
  {
    hide WriteBytes, ParseField;
    if payload != [] { ParseWrittenBytes(SCHEMA, m, number, payload, base); }
  }

  /** Decoding undoes encoding. */
  lemma RoundTrip(m: Report)
    requires |EncodeReport(m)| < TWO_63
    ensures Parse(SCHEMA, Report([], []), EncodeReport(m), 0) == Ok(m)
  {
    hide Parse, OptionalBytes;
    var a, b := OptionalBytes(1, m.queryData), OptionalBytes(2, m.value);
    ParseOptionalBytes(Report([], []), 1, m.queryData, 0);
    ParseConcat(SCHEMA, Report([], []), a, b, 0);
    ParseOptionalBytes(Report(m.queryData, []), 2, m.value, |a|);
  }

  /** The round trip as a caller sees it, through the two methods. */
  method MarshalThenUnmarshal(m: GetPendingDepositReportResponse) returns (copy: GetPendingDepositReportResponse)
    requires |EncodeReport(m.Message())| < TWO_63
    ensures fresh(copy) && copy.Message() == m.Message()
  {
    hide Parse, EncodeReport;
    var dAtA := m.Marshal();
    copy := new GetPendingDepositReportResponse();
    RoundTrip(m.Message());
    var _ := copy.Unmarshal(dAtA);
  }

  /** A newer sender's extra field between two complete fields is ignored. */
  lemma UnknownFieldIgnored(m: Report, a: seq<byte>, u: UnknownField, b: seq<byte>)
    requires Parse(SCHEMA, m, a, 0).Ok?
    requires WellFormed(u) && FieldNumber(Base128(u.tag)) > 2 && |a| + |Encode(u)| + |b| < TWO_63
    ensures Parse(SCHEMA, m, a + Encode(u) + b, 0).Ok? <==> Parse(SCHEMA, m, a + b, 0).Ok?
    ensures Parse(SCHEMA, m, a + b, 0).Ok? ==> Parse(SCHEMA, m, a + Encode(u) + b, 0) == Parse(SCHEMA, m, a + b, 0)
  {
    hide Parse, Encode, WellFormed, FieldNumber;
    InsertUnknown(SCHEMA, m, a, u, b);
  }
}
