/**
 The wire codec of a market price update request: a list of markets, each with a list of exchange
 prices, each with an optional time. Times are encoded by code that is not part of this model; it is
 a parameter, and the round trip assumes only that it reads back the times it can write.
 */
module PricefeedMessages {
  import opened Bits
  import opened Options
  import opened Varint
  import opened Wire
  import opened MessageProperties
  import opened Times

  /** `StdTimeMarshalTo` and `StdTimeUnmarshal`; either may fail. */
  datatype TimeCodec = TimeCodec(encode: Time -> Option<seq<byte>>, decode: seq<byte> -> Option<Time>)

  ghost predicate ReadsBack(times: TimeCodec) {
    forall t: Time :: times.encode(t).Some? ==> times.decode(times.encode(t).value) == Some(t)
  }

  datatype ExchangePrice = ExchangePrice(exchangeId: seq<byte>, price: uint64, lastUpdateTime: Option<Time>)
  datatype MarketPriceUpdate = MarketPriceUpdate(marketId: uint32, exchangePrices: seq<ExchangePrice>)
  datatype Request = Request(marketPriceUpdates: seq<MarketPriceUpdate>)

  const NO_PRICE := ExchangePrice([], 0, None)
  const NO_UPDATE := MarketPriceUpdate(0, [])
  const NO_REQUEST := Request([])

  // ---------------------------------------------------------------- what is written

  function OptionalBytes(number: nat, payload: seq<byte>): seq<byte> {
    if payload == [] then [] else WriteBytes(number, payload)
  }

  function OptionalNumber(number: nat, v: nat): seq<byte> {
    if v == 0 then [] else WriteNumber(number, v)
  }

  /** The bytes of a time; a time that cannot be encoded counts as empty until `Marshal` fails on it. */
  function TimeBytes(times: TimeCodec, t: Time): seq<byte> {
    match times.encode(t) case None => [] case Some(bytes) => bytes
  }

  function OptionalTime(times: TimeCodec, t: Option<Time>): seq<byte> {
    match t case None => [] case Some(time) => WriteBytes(3, TimeBytes(times, time))
  }

  function EncodePrice(times: TimeCodec, e: ExchangePrice): seq<byte> {
    OptionalBytes(1, e.exchangeId) + (OptionalNumber(2, e.price) + OptionalTime(times, e.lastUpdateTime))
  }

  function EncodePrices(times: TimeCodec, es: seq<ExchangePrice>): seq<byte> {
    if es == [] then [] else WriteBytes(2, EncodePrice(times, es[0])) + EncodePrices(times, es[1..])
  }

  function EncodeUpdate(times: TimeCodec, u: MarketPriceUpdate): seq<byte> {
    OptionalNumber(1, u.marketId) + EncodePrices(times, u.exchangePrices)
  }

  function EncodeUpdates(times: TimeCodec, us: seq<MarketPriceUpdate>): seq<byte> {
    if us == [] then [] else WriteBytes(1, EncodeUpdate(times, us[0])) + EncodeUpdates(times, us[1..])
  }

  predicate PriceEncodable(times: TimeCodec, e: ExchangePrice) {
    e.lastUpdateTime.Some? ==> times.encode(e.lastUpdateTime.value).Some?
  }

  predicate UpdateEncodable(times: TimeCodec, u: MarketPriceUpdate) {
    forall e | e in u.exchangePrices :: PriceEncodable(times, e)
  }

  predicate Encodable(times: TimeCodec, r: Request) {
    forall u | u in r.marketPriceUpdates :: UpdateEncodable(times, u)
  }

  // ---------------------------------------------------------------- what is read

  function PriceSchema(times: TimeCodec): Schema<ExchangePrice> {
    Schema(
      (number: int) => if number == 1 || number == 3 then Bytes else if number == 2 then Number else Unknown,
      (m: ExchangePrice, number: int, payload: seq<byte>) =>
        if number == 1 then Ok(m.(exchangeId := payload))
        else match times.decode(payload)
          case None => Err(BadTime)
          case Some(t) => Ok(m.(lastUpdateTime := Some(t))),
      (m: ExchangePrice, number: int, v: nat) => m.(price := Word64(v)))
  }

  function UpdateSchema(times: TimeCodec): Schema<MarketPriceUpdate> {
    Schema(
      (number: int) => if number == 1 then Number else if number == 2 then Bytes else Unknown,
      (m: MarketPriceUpdate, number: int, payload: seq<byte>) =>
        match Parse(PriceSchema(times), NO_PRICE, payload, 0)
        case Err(e) => Err(e)
        case Ok(price) => Ok(m.(exchangePrices := m.exchangePrices + [price])),
      (m: MarketPriceUpdate, number: int, v: nat) => m.(marketId := v % 0x1_0000_0000))
  }

  function RequestSchema(times: TimeCodec): Schema<Request> {
    Schema(
      (number: int) => if number == 1 then Bytes else Unknown,
      (m: Request, number: int, payload: seq<byte>) =>
        match Parse(UpdateSchema(times), NO_UPDATE, payload, 0)
        case Err(e) => Err(e)
        case Ok(update) => Ok(m.(marketPriceUpdates := m.marketPriceUpdates + [update])),
      (m: Request, number: int, v: nat) => m)
  }

  // ---------------------------------------------------------------- decoding undoes encoding

  lemma PriceRoundTrip(times: TimeCodec, e: ExchangePrice)
    requires ReadsBack(times) && PriceEncodable(times, e) && |EncodePrice(times, e)| < TWO_63
    ensures Parse(PriceSchema(times), NO_PRICE, EncodePrice(times, e), 0) == Ok(e)
  {
    hide ParseField, WriteBytes, WriteNumber;
    var schema := PriceSchema(times);
    var a, b, c := OptionalBytes(1, e.exchangeId), OptionalNumber(2, e.price), OptionalTime(times, e.lastUpdateTime);
    var m1 := NO_PRICE.(exchangeId := e.exchangeId);
    var m2 := m1.(price := e.price);
    if e.exchangeId != [] { ParseWrittenBytes(schema, NO_PRICE, 1, e.exchangeId, 0); }
    ParseConcat(schema, NO_PRICE, a, b + c, 0);
    if e.price != 0 { ParseWrittenNumber(schema, m1, 2, e.price, |a|); }
    ParseConcat(schema, m1, b, c, |a|);
    if e.lastUpdateTime.Some? {
      ParseWrittenBytes(schema, m2, 3, TimeBytes(times, e.lastUpdateTime.value), |a| + |b|);
    }
  }

  lemma PayloadFits(number: nat, payload: seq<byte>)
    ensures |payload| < |WriteBytes(number, payload)|
  {
    hide VarintBytes;
  }

  lemma {:induction false} PricesRoundTrip(times: TimeCodec, m: MarketPriceUpdate, es: seq<ExchangePrice>, base: nat)
    requires ReadsBack(times) && (forall e | e in es :: PriceEncodable(times, e))
    requires base + |EncodePrices(times, es)| < TWO_63
    ensures Parse(UpdateSchema(times), m, EncodePrices(times, es), base) ==
            Ok(m.(exchangePrices := m.exchangePrices + es))
    decreases |es|
  {
    hide ParseField, EncodePrice, PriceEncodable, WriteBytes, PriceSchema, ReadsBack;
    if es == [] {
      assert m.exchangePrices + [] == m.exchangePrices;
    } else {
      var field := WriteBytes(2, EncodePrice(times, es[0]));
      PayloadFits(2, EncodePrice(times, es[0]));
      PriceRoundTrip(times, es[0]);
      ParseWrittenBytes(UpdateSchema(times), m, 2, EncodePrice(times, es[0]), base);
      var m1 := m.(exchangePrices := m.exchangePrices + [es[0]]);
      ParseConcat(UpdateSchema(times), m, field, EncodePrices(times, es[1..]), base);
      PricesRoundTrip(times, m1, es[1..], base + |field|);
      assert m.exchangePrices + [es[0]] + es[1..] == m.exchangePrices + es;
    }
  }

  lemma UpdateRoundTrip(times: TimeCodec, u: MarketPriceUpdate)
    requires ReadsBack(times) && UpdateEncodable(times, u) && |EncodeUpdate(times, u)| < TWO_63
    ensures Parse(UpdateSchema(times), NO_UPDATE, EncodeUpdate(times, u), 0) == Ok(u)
  {
    hide ParseField, WriteNumber, EncodePrices, PriceSchema, ReadsBack;
    var schema := UpdateSchema(times);
    var a, b := OptionalNumber(1, u.marketId), EncodePrices(times, u.exchangePrices);
    var m1 := NO_UPDATE.(marketId := u.marketId);
    if u.marketId != 0 { ParseWrittenNumber(schema, NO_UPDATE, 1, u.marketId, 0); }
    ParseConcat(schema, NO_UPDATE, a, b, 0);
    PricesRoundTrip(times, m1, u.exchangePrices, |a|);
    assert [] + u.exchangePrices == u.exchangePrices;
  }

  lemma {:induction false} UpdatesRoundTrip(times: TimeCodec, m: Request, us: seq<MarketPriceUpdate>, base: nat)
    requires ReadsBack(times) && (forall u | u in us :: UpdateEncodable(times, u))
    requires base + |EncodeUpdates(times, us)| < TWO_63
    ensures Parse(RequestSchema(times), m, EncodeUpdates(times, us), base) ==
            Ok(Request(m.marketPriceUpdates + us))
    decreases |us|
  {
    hide ParseField, EncodeUpdate, UpdateEncodable, WriteBytes, UpdateSchema, ReadsBack;
    if us == [] {
      assert m.marketPriceUpdates + [] == m.marketPriceUpdates;
    } else {
      var field := WriteBytes(1, EncodeUpdate(times, us[0]));
      PayloadFits(1, EncodeUpdate(times, us[0]));
      UpdateRoundTrip(times, us[0]);
      ParseWrittenBytes(RequestSchema(times), m, 1, EncodeUpdate(times, us[0]), base);
      var m1 := Request(m.marketPriceUpdates + [us[0]]);
      ParseConcat(RequestSchema(times), m, field, EncodeUpdates(times, us[1..]), base);
      UpdatesRoundTrip(times, m1, us[1..], base + |field|);
      assert m.marketPriceUpdates + [us[0]] + us[1..] == m.marketPriceUpdates + us;
    }
  }

  /** Every request whose times can be written is read back unchanged. */
  lemma RoundTrip(times: TimeCodec, r: Request)
    requires ReadsBack(times) && Encodable(times, r)
    requires |EncodeUpdates(times, r.marketPriceUpdates)| < TWO_63
    ensures Parse(RequestSchema(times), NO_REQUEST, EncodeUpdates(times, r.marketPriceUpdates), 0) == Ok(r)
  {
    hide Parse, EncodeUpdates, RequestSchema, ReadsBack;
    UpdatesRoundTrip(times, NO_REQUEST, r.marketPriceUpdates, 0);
    assert [] + r.marketPriceUpdates == r.marketPriceUpdates;
  }
}
