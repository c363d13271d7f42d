/**
 The wire format byte by byte: which tags the messages are written with, what a repeated field does to the
 message, and which tags and wire types are refused.
 */
module WireFormat {
  import opened Arith
  import opened Bits
  import opened MessageProperties
  import opened Options
  import opened Varint
  import opened Wire
  import P = PricefeedMessages
  import T = TokenBridgeMessage

  /** A length-delimited field: its tag, the length of the payload, and the payload. */
  ghost predicate IsField(s: seq<byte>, tag: byte, payload: seq<byte>) {
    s == [tag] + VarintBytes(|payload|) + payload
  }

  lemma SmallVarint(v: nat)
    requires v < 128
    ensures VarintBytes(v) == [v]
  {
  }

  lemma FieldLayout(number: nat, payload: seq<byte>)
    requires 1 <= number < 16
    ensures IsField(WriteBytes(number, payload), 8 * number + 2, payload)
  {
    hide VarintBytes;
    SmallVarint(8 * number + 2);
  }

  lemma NumberLayout(number: nat, v: nat)
    requires 1 <= number < 16
    ensures WriteNumber(number, v) == [8 * number] + VarintBytes(v)
  {
    hide VarintBytes;
    SmallVarint(8 * number);
  }

  // ---------------------------------------------------------------- what is written

  /** A report: the query data under tag 0x0A and then the value under tag 0x12, each only if it is not empty. */
  lemma ReportLayout(m: T.Report) returns (queryData: seq<byte>, value: seq<byte>)
    ensures T.EncodeReport(m) == queryData + value
    ensures if m.queryData == [] then queryData == [] else IsField(queryData, 0x0A, m.queryData)
    ensures if m.value == [] then value == [] else IsField(value, 0x12, m.value)
  {
    hide IsField;
    queryData, value := T.OptionalBytes(1, m.queryData), T.OptionalBytes(2, m.value);
    FieldLayout(1, m.queryData);
    FieldLayout(2, m.value);
  }

  /** An exchange price: the exchange under tag 0x0A, the price under tag 0x10 and the time under tag 0x1A. */
  lemma PriceLayout(times: P.TimeCodec, e: P.ExchangePrice) returns (id: seq<byte>, price: seq<byte>, time: seq<byte>)
    requires P.PriceEncodable(times, e)
    ensures P.EncodePrice(times, e) == id + (price + time)
    ensures if e.exchangeId == [] then id == [] else IsField(id, 0x0A, e.exchangeId)
    ensures price == if e.price == 0 then [] else [0x10] + VarintBytes(e.price)
    ensures if e.lastUpdateTime.None? then time == []
            else IsField(time, 0x1A, times.encode(e.lastUpdateTime.value).value)
  {
    hide IsField, VarintBytes;
    id, price, time := P.OptionalBytes(1, e.exchangeId), P.OptionalNumber(2, e.price), P.OptionalTime(times, e.lastUpdateTime);
    FieldLayout(1, e.exchangeId);
    NumberLayout(2, e.price);
    if e.lastUpdateTime.Some? { FieldLayout(3, times.encode(e.lastUpdateTime.value).value); }
  }

  /** Fields under one tag, one for each payload, in order. */
  ghost predicate AreFields(s: seq<byte>, tag: byte, payloads: seq<seq<byte>>)
    decreases |payloads|
  {
    if payloads == [] then s == []
    else exists rest :: s == [tag] + VarintBytes(|payloads[0]|) + payloads[0] + rest && AreFields(rest, tag, payloads[1..])
  }

  lemma FieldsAppend(first: seq<byte>, rest: seq<byte>, tag: byte, payloads: seq<seq<byte>>)
    requires payloads != [] && IsField(first, tag, payloads[0]) && AreFields(rest, tag, payloads[1..])
    ensures AreFields(first + rest, tag, payloads)
  {
    hide VarintBytes;
    assert first + rest == [tag] + VarintBytes(|payloads[0]|) + payloads[0] + rest;
  }

  function PricePayloads(times: P.TimeCodec, es: seq<P.ExchangePrice>): seq<seq<byte>> {
    seq(|es|, i requires 0 <= i < |es| => P.EncodePrice(times, es[i]))
  }

  function UpdatePayloads(times: P.TimeCodec, us: seq<P.MarketPriceUpdate>): seq<seq<byte>> {
    seq(|us|, i requires 0 <= i < |us| => P.EncodeUpdate(times, us[i]))
  }

  /** A market update: the market under tag 0x08, and its prices in order, each under tag 0x12. */
  lemma UpdateLayout(times: P.TimeCodec, u: P.MarketPriceUpdate) returns (id: seq<byte>, prices: seq<byte>)
    ensures P.EncodeUpdate(times, u) == id + prices
    ensures id == if u.marketId == 0 then [] else [0x08] + VarintBytes(u.marketId)
    ensures AreFields(prices, 0x12, PricePayloads(times, u.exchangePrices))
  {
    hide AreFields, VarintBytes;
    id, prices := P.OptionalNumber(1, u.marketId), P.EncodePrices(times, u.exchangePrices);
    NumberLayout(1, u.marketId);
    PricesLayout(times, u.exchangePrices);
  }

  lemma {:induction false} PricesLayout(times: P.TimeCodec, es: seq<P.ExchangePrice>)
    ensures AreFields(P.EncodePrices(times, es), 0x12, PricePayloads(times, es))
  {
    hide IsField, VarintBytes, P.EncodePrice;
    var payloads := PricePayloads(times, es);
    if es != [] {
      PricesLayout(times, es[1..]);
      assert payloads[1..] == PricePayloads(times, es[1..]);
      FieldLayout(2, payloads[0]);
      FieldsAppend(WriteBytes(2, payloads[0]), P.EncodePrices(times, es[1..]), 0x12, payloads);
    }
  }

  /** A request: its updates in order, each under tag 0x0A. */
  lemma {:induction false} RequestLayout(times: P.TimeCodec, us: seq<P.MarketPriceUpdate>)
    ensures AreFields(P.EncodeUpdates(times, us), 0x0A, UpdatePayloads(times, us))
  {
    hide IsField, VarintBytes, P.EncodeUpdate;
    var payloads := UpdatePayloads(times, us);
    if us != [] {
      RequestLayout(times, us[1..]);
      assert payloads[1..] == UpdatePayloads(times, us[1..]);
      FieldLayout(1, payloads[0]);
      FieldsAppend(WriteBytes(1, payloads[0]), P.EncodeUpdates(times, us[1..]), 0x0A, payloads);
    }
  }

  // ---------------------------------------------------------------- what is read

  /** Of a field that occurs twice in a report the second occurrence counts. */
  lemma LastQueryDataCounts(m: T.Report, a: seq<byte>, b: seq<byte>)
    requires |WriteBytes(1, a)| + |WriteBytes(1, b)| < TWO_63
    ensures Parse(T.SCHEMA, m, WriteBytes(1, a) + WriteBytes(1, b), 0) == Ok(T.Report(b, m.value))
  {
    hide Parse, WriteBytes;
    ParseWrittenBytes(T.SCHEMA, m, 1, a, 0);
    ParseConcat(T.SCHEMA, m, WriteBytes(1, a), WriteBytes(1, b), 0);
    ParseWrittenBytes(T.SCHEMA, T.Report(a, m.value), 1, b, |WriteBytes(1, a)|);
  }

  lemma LastValueCounts(m: T.Report, a: seq<byte>, b: seq<byte>)
    requires |WriteBytes(2, a)| + |WriteBytes(2, b)| < TWO_63
    ensures Parse(T.SCHEMA, m, WriteBytes(2, a) + WriteBytes(2, b), 0) == Ok(T.Report(m.queryData, b))
  {
    hide Parse, WriteBytes;
    ParseWrittenBytes(T.SCHEMA, m, 2, a, 0);
    ParseConcat(T.SCHEMA, m, WriteBytes(2, a), WriteBytes(2, b), 0);
    ParseWrittenBytes(T.SCHEMA, T.Report(m.queryData, a), 2, b, |WriteBytes(2, a)|);
  }

  /** A market id is cut to 32 bits. */
  lemma MarketIdCut(times: P.TimeCodec, m: P.MarketPriceUpdate, v: nat)
    requires v < 0x1_0000_0000_0000_0000
    ensures Parse(P.UpdateSchema(times), m, [0x08] + VarintBytes(v), 0)
         == Ok(P.MarketPriceUpdate(v % 0x1_0000_0000, m.exchangePrices))
  {
    hide VarintBytes, Parse;
    NumberLayout(1, v);
    ParseWrittenNumber(P.UpdateSchema(times), m, 1, v, 0);
  }

  /** A known field with another wire type than its own is refused. */
  lemma WrongWireTypeRefused<M>(schema: Schema<M>, m: M, number: nat, wireType: nat, rest: seq<byte>, base: nat)
    requires 1 <= number < 0x1000_0000 && wireType < 8 && wireType != 4
    requires (schema.kind(number).Bytes? && wireType != 2) || (schema.kind(number).Number? && wireType != 0)
    ensures Parse(schema, m, TagBytes(number, wireType) + rest, base) == Err(WrongWireType)
  {
    hide ReadVarint, ReadTag, VarintBytes, ParseBody;
    TagReadBack(number, wireType, rest);
    WrongBody(schema, m, TagBytes(number, wireType) + rest, Tag(number, wireType, |TagBytes(number, wireType)|), base);
  }

  lemma WrongBody<M>(schema: Schema<M>, m: M, s: seq<byte>, tag: Tag, base: nat)
    requires 1 <= tag.length <= |s|
    requires (schema.kind(tag.number).Bytes? && tag.wireType != 2) || (schema.kind(tag.number).Number? && tag.wireType != 0)
    ensures ParseBody(schema, m, s, tag, base) == Err(WrongWireType)
  {
  }

  /** A tag with wire type 4 is refused, and so is one whose field number, cut to 32 bits, is zero or negative. */
  lemma IllegalTagsRefused<M>(schema: Schema<M>, m: M, v: nat, rest: seq<byte>, base: nat)
    requires v < 0x1_0000_0000_0000_0000
    ensures v % 8 == 4 ==> Parse(schema, m, VarintBytes(v) + rest, base) == Err(EndGroupForNonGroup)
    ensures v % 8 != 4 && (v / 8 % 0x1_0000_0000 == 0 || v / 8 % 0x1_0000_0000 >= 0x8000_0000) ==>
              Parse(schema, m, VarintBytes(v) + rest, base) == Err(IllegalTag)
  {
    hide ReadVarint, VarintBytes;
    VarintRoundTrip(v, rest);
    DivModUnique(v, 0x1_0000_0000_0000_0000, 0, v);
  }

  /** A payload longer than what is left of the input is refused, and so is a negative length. */
  lemma LengthsRefused(v: nat, rest: seq<byte>, base: nat)
    requires v < 0x1_0000_0000_0000_0000
    ensures v >= 0x8000_0000_0000_0000 ==> ReadLength(VarintBytes(v) + rest, base) == Err(InvalidLength)
    ensures v < 0x8000_0000_0000_0000 && base + |VarintBytes(v)| + v < 0x8000_0000_0000_0000 && v > |rest| ==>
              ReadLength(VarintBytes(v) + rest, base) == Err(UnexpectedEOF)
  {
    hide ReadVarint, VarintBytes;
    VarintRoundTrip(v, rest);
    DivModUnique(v, 0x1_0000_0000_0000_0000, 0, v);
  }
}
