/** The generated code for the market price update messages, proved against `PricefeedMessages`. */
module PricefeedCodec {
  import opened Bits
  import opened Varint
  import opened Wire
  import opened MessageProperties
  import opened WireWriter
  import opened PricefeedMessages

  // ---------------------------------------------------------------- Size

  lemma WriteBytesSize(number: nat, payload: seq<byte>)
    requires 1 <= number < 16
    ensures |WriteBytes(number, payload)| == 1 + |payload| + Sov(|payload|)
  {
    hide VarintBytes, Sov;
    SovIsLength(|payload|);
    OneByteTag(number, 2);
  }

  lemma WriteNumberSize(number: nat, v: nat)
    requires 1 <= number < 16
    ensures |WriteNumber(number, v)| == 1 + Sov(v)
  {
    hide VarintBytes, Sov;
    SovIsLength(v);
    OneByteTag(number, 0);
  }

  method PriceSize(times: TimeCodec, e: ExchangePrice) returns (n: nat)
    ensures n == |EncodePrice(times, e)|
  {
    hide WriteBytes, WriteNumber, Sov;
    n := 0;
    var l := |e.exchangeId|;
    if l > 0 {
      WriteBytesSize(1, e.exchangeId);
      n := n + 1 + l + Sov(l);
    }
    if e.price != 0 {
      WriteNumberSize(2, e.price);
      n := n + 1 + Sov(e.price);
    }
    if e.lastUpdateTime.Some? {
      l := |TimeBytes(times, e.lastUpdateTime.value)|;
      WriteBytesSize(3, TimeBytes(times, e.lastUpdateTime.value));
      n := n + 1 + l + Sov(l);
    }
  }

  lemma PricesFrom(times: TimeCodec, es: seq<ExchangePrice>, k: nat)
    requires k < |es|
    ensures EncodePrices(times, es[k..]) == WriteBytes(2, EncodePrice(times, es[k])) + EncodePrices(times, es[k + 1..])
  {
    hide WriteBytes, EncodePrice;
    assert es[k..][1..] == es[k + 1..];
  }

  lemma {:induction false} PricesSuffix(times: TimeCodec, es: seq<ExchangePrice>, k: nat)
    requires k <= |es|
    ensures |EncodePrices(times, es[k..])| <= |EncodePrices(times, es)|
  {
    hide WriteBytes, EncodePrice;
    if k == 0 {
      assert es[0..] == es;
    } else {
      PricesSuffix(times, es[1..], k - 1);
      assert es[1..][k - 1..] == es[k..];
    }
  }

  lemma {:induction false} PricesSnoc(times: TimeCodec, es: seq<ExchangePrice>, e: ExchangePrice)
    ensures EncodePrices(times, es + [e]) == EncodePrices(times, es) + WriteBytes(2, EncodePrice(times, e))
  {
    hide WriteBytes, EncodePrice;
    if es == [] {
      assert ([] + [e])[1..] == [];
    } else {
      assert (es + [e])[1..] == es[1..] + [e];
      PricesSnoc(times, es[1..], e);
    }
  }

  method UpdateSize(times: TimeCodec, u: MarketPriceUpdate) returns (n: nat)
    ensures n == |EncodeUpdate(times, u)|
  {
    hide WriteBytes, WriteNumber, Sov, EncodePrice, EncodePrices;
    n := 0;
    if u.marketId != 0 {
      WriteNumberSize(1, u.marketId);
      n := n + 1 + Sov(u.marketId);
    }
    NoPrices(times);
    ghost var before := n;
    var es := u.exchangePrices;
    for k := 0 to |es|
      invariant n == before + |EncodePrices(times, es[..k])|
    {
      PricesSnoc(times, es[..k], es[k]);
      assert es[..k + 1] == es[..k] + [es[k]];
      var l := PriceSize(times, es[k]);
      WriteBytesSize(2, EncodePrice(times, es[k]));
      n := n + 1 + l + Sov(l);
    }
    assert es[..|es|] == es;
  }

  lemma NoPrices(times: TimeCodec)
    ensures EncodePrices(times, []) == [] && EncodeUpdates(times, []) == []
  {
  }

  lemma UpdatesFrom(times: TimeCodec, us: seq<MarketPriceUpdate>, k: nat)
    requires k < |us|
    ensures EncodeUpdates(times, us[k..]) == WriteBytes(1, EncodeUpdate(times, us[k])) + EncodeUpdates(times, us[k + 1..])
  {
    hide WriteBytes, EncodeUpdate;
    assert us[k..][1..] == us[k + 1..];
  }

  lemma {:induction false} UpdatesSuffix(times: TimeCodec, us: seq<MarketPriceUpdate>, k: nat)
    requires k <= |us|
    ensures |EncodeUpdates(times, us[k..])| <= |EncodeUpdates(times, us)|
  {
    hide WriteBytes, EncodeUpdate;
    if k == 0 {
      assert us[0..] == us;
    } else {
      UpdatesSuffix(times, us[1..], k - 1);
      assert us[1..][k - 1..] == us[k..];
    }
  }

  lemma {:induction false} UpdatesSnoc(times: TimeCodec, us: seq<MarketPriceUpdate>, u: MarketPriceUpdate)
    ensures EncodeUpdates(times, us + [u]) == EncodeUpdates(times, us) + WriteBytes(1, EncodeUpdate(times, u))
  {
    hide WriteBytes, EncodeUpdate;
    if us == [] {
      assert ([] + [u])[1..] == [];
    } else {
      assert (us + [u])[1..] == us[1..] + [u];
      UpdatesSnoc(times, us[1..], u);
    }
  }

  method RequestSize(times: TimeCodec, r: Request) returns (n: nat)
    ensures n == |EncodeUpdates(times, r.marketPriceUpdates)|
  {
    hide WriteBytes, Sov, EncodeUpdate, EncodeUpdates;
    n := 0;
    NoPrices(times);
    var us := r.marketPriceUpdates;
    for k := 0 to |us|
      invariant n == |EncodeUpdates(times, us[..k])|
    {
      UpdatesSnoc(times, us[..k], us[k]);
      assert us[..k + 1] == us[..k] + [us[k]];
      var l := UpdateSize(times, us[k]);
      WriteBytesSize(1, EncodeUpdate(times, us[k]));
      n := n + 1 + l + Sov(l);
    }
    assert us[..|us|] == us;
  }

  // ---------------------------------------------------------------- Marshal

  /** Writes the price so that it ends just before `end`; fails exactly when its time cannot be encoded. */
  method MarshalPrice(times: TimeCodec, e: ExchangePrice, dAtA: array<byte>, end: nat) returns (ok: bool, size: nat)
    requires |EncodePrice(times, e)| <= end <= dAtA.Length
    modifies dAtA
    ensures ok == PriceEncodable(times, e) && size == |EncodePrice(times, e)|
    ensures ok ==> dAtA[end - size..] == EncodePrice(times, e) + old(dAtA[end..])
                   && dAtA[..end - size] == old(dAtA[..end - size])
  {
    hide WriteBytes, WriteNumber;
    ghost var front, back := dAtA[..end], dAtA[end..];
    size := |EncodePrice(times, e)|;
    if !PriceEncodable(times, e) { return false, size; }
    var i := end;
    ghost var written := [];
    assert dAtA[i..] == written + back;
    if e.lastUpdateTime.Some? {
      i := PutBytes(dAtA, i, 3, TimeBytes(times, e.lastUpdateTime.value));
      written := WriteBytes(3, TimeBytes(times, e.lastUpdateTime.value));
    }
    assert dAtA[i..] == written + back && dAtA[..i] == front[..i] && written == OptionalTime(times, e.lastUpdateTime);
    i := PutPriceAndId(times, e, dAtA, i, back);
    assert dAtA[..i] == front[..i];
    return true, end - i;
  }

  method PutPriceAndId(times: TimeCodec, e: ExchangePrice, dAtA: array<byte>, end: nat, ghost back: seq<byte>)
    returns (i: nat)
    requires |OptionalBytes(1, e.exchangeId)| + |OptionalNumber(2, e.price)| <= end <= dAtA.Length
    requires dAtA[end..] == OptionalTime(times, e.lastUpdateTime) + back
    modifies dAtA
    ensures i == end - |OptionalBytes(1, e.exchangeId)| - |OptionalNumber(2, e.price)|
    ensures dAtA[i..] == EncodePrice(times, e) + back && dAtA[..i] == old(dAtA[..i])
  {
    hide WriteBytes, WriteNumber, OptionalTime;
    ghost var front, time := dAtA[..end], OptionalTime(times, e.lastUpdateTime);
    i := end;
    if e.price != 0 {
      i := PutNumber(dAtA, i, 2, e.price);
      assert dAtA[i..] == (OptionalNumber(2, e.price) + time) + back && dAtA[..i] == front[..i];
    } else {
      assert [] + time == time;
    }
    if |e.exchangeId| > 0 {
      i := PutBytes(dAtA, i, 1, e.exchangeId);
      assert dAtA[i..] == EncodePrice(times, e) + back && dAtA[..i] == front[..i];
    } else {
      assert EncodePrice(times, e) == OptionalNumber(2, e.price) + time;
    }
  }

  method MarshalUpdate(times: TimeCodec, u: MarketPriceUpdate, dAtA: array<byte>, end: nat) returns (ok: bool, size: nat)
    requires |EncodeUpdate(times, u)| <= end <= dAtA.Length
    modifies dAtA
    ensures ok == UpdateEncodable(times, u) && size == |EncodeUpdate(times, u)|
    ensures ok ==> dAtA[end - size..] == EncodeUpdate(times, u) + old(dAtA[end..])
                   && dAtA[..end - size] == old(dAtA[..end - size])
  {
    hide WriteBytes, WriteNumber, EncodePrice, EncodePrices, PriceEncodable;
    ghost var front, back := dAtA[..end], dAtA[end..];
    size := |EncodeUpdate(times, u)|;
    var i;
    ok, i := MarshalPrices(times, u.exchangePrices, dAtA, end);
    if !ok { return; }
    ghost var prices := EncodePrices(times, u.exchangePrices);
    assert dAtA[..i] == front[..i];
    if u.marketId != 0 {
      i := PutNumber(dAtA, i, 1, u.marketId);
      assert dAtA[i..] == WriteNumber(1, u.marketId) + (prices + back);
      InFront(WriteNumber(1, u.marketId), prices, back);
    } else {
      assert EncodeUpdate(times, u) == prices;
    }
    assert dAtA[..i] == front[..i];
  }

  lemma InFront(a: seq<byte>, b: seq<byte>, c: seq<byte>)
    ensures a + (b + c) == (a + b) + c
  {
  }

  /** The backward loop over the exchange prices. */
  method MarshalPrices(times: TimeCodec, es: seq<ExchangePrice>, dAtA: array<byte>, end: nat) returns (ok: bool, i: nat)
    requires |EncodePrices(times, es)| <= end <= dAtA.Length
    modifies dAtA
    ensures ok <==> forall e | e in es :: PriceEncodable(times, e)
    ensures ok ==> i == end - |EncodePrices(times, es)|
                   && dAtA[i..] == EncodePrices(times, es) + old(dAtA[end..]) && dAtA[..i] == old(dAtA[..i])
  {
    hide WriteBytes, EncodePrice, EncodePrices, PriceEncodable;
    ghost var front, back := dAtA[..end], dAtA[end..];
    NoPrices(times);
    i := end;
    var k := |es|;
    assert es[k..] == [];
    while k > 0
      invariant 0 <= k <= |es| && i == end - |EncodePrices(times, es[k..])|
      invariant dAtA[i..] == EncodePrices(times, es[k..]) + back && dAtA[..i] == front[..i]
      invariant forall j :: k <= j < |es| ==> PriceEncodable(times, es[j])
    {
      k := k - 1;
      i, ok := PutPrice(times, es, k, dAtA, i, back);
      if !ok { return false, i; }
      assert dAtA[..i] == front[..i];
    }
    assert es[0..] == es;
    return true, i;
  }

  method PutPrice(times: TimeCodec, es: seq<ExchangePrice>, k: nat, dAtA: array<byte>, end: nat, ghost back: seq<byte>)
    returns (i: nat, ok: bool)
    requires k < |es| && end <= dAtA.Length
    requires |EncodePrices(times, es)| <= end + |EncodePrices(times, es[k + 1..])|
    requires dAtA[end..] == EncodePrices(times, es[k + 1..]) + back
    modifies dAtA
    ensures ok == PriceEncodable(times, es[k])
    ensures ok ==> i <= end && i == end + |EncodePrices(times, es[k + 1..])| - |EncodePrices(times, es[k..])|
                   && dAtA[i..] == EncodePrices(times, es[k..]) + back && dAtA[..i] == old(dAtA[..i])
  {
    hide VarintBytes, TagBytes, EncodePrice, EncodePrices, PriceEncodable;
    ghost var front, payload, rest := dAtA[..end], EncodePrice(times, es[k]), EncodePrices(times, es[k + 1..]);
    PricesFrom(times, es, k);
    PricesSuffix(times, es, k);
    i := end;
    var size;
    ok, size := MarshalPrice(times, es[k], dAtA, i);
    if !ok { return; }
    i := i - size;
    assert dAtA[..i] == front[..i] && dAtA[i..] == payload + (rest + back);
    i := PutPrefix(dAtA, i, 2, size);
    assert dAtA[..i] == front[..i];
    assert dAtA[i..] == (TagBytes(2, 2) + (VarintBytes(size) + payload)) + rest + back;
  }

  /** The backward loop over the markets. */
  method MarshalRequest(times: TimeCodec, r: Request, dAtA: array<byte>) returns (ok: bool, n: nat)
    requires |EncodeUpdates(times, r.marketPriceUpdates)| <= dAtA.Length
    modifies dAtA
    ensures ok == Encodable(times, r)
    ensures ok ==> n == |EncodeUpdates(times, r.marketPriceUpdates)|
                   && dAtA[dAtA.Length - n..] == EncodeUpdates(times, r.marketPriceUpdates)
                   && dAtA[..dAtA.Length - n] == old(dAtA[..dAtA.Length - n])
  {
    hide WriteBytes, EncodeUpdate, EncodeUpdates, UpdateEncodable;
    var us := r.marketPriceUpdates;
    ghost var front := dAtA[..];
    NoPrices(times);
    var i: nat := dAtA.Length;
    var k := |us|;
    n := 0;
    assert us[k..] == [];
    while k > 0
      invariant 0 <= k <= |us| && i == dAtA.Length - |EncodeUpdates(times, us[k..])|
      invariant dAtA[i..] == EncodeUpdates(times, us[k..]) && dAtA[..i] == front[..i]
      invariant forall j :: k <= j < |us| ==> UpdateEncodable(times, us[j])
    {
      k := k - 1;
      i, ok := PutUpdate(times, us, k, dAtA, i);
      if !ok { return; }
      assert dAtA[..i] == front[..i];
    }
    assert us[0..] == us;
    ok, n := true, dAtA.Length - i;
  }

  method PutUpdate(times: TimeCodec, us: seq<MarketPriceUpdate>, k: nat, dAtA: array<byte>, end: nat)
    returns (i: nat, ok: bool)
    requires k < |us| && end <= dAtA.Length
    requires |EncodeUpdates(times, us)| <= end + |EncodeUpdates(times, us[k + 1..])|
    requires dAtA[end..] == EncodeUpdates(times, us[k + 1..])
    modifies dAtA
    ensures ok == UpdateEncodable(times, us[k])
    ensures ok ==> i <= end && i == end + |EncodeUpdates(times, us[k + 1..])| - |EncodeUpdates(times, us[k..])|
                   && dAtA[i..] == EncodeUpdates(times, us[k..]) && dAtA[..i] == old(dAtA[..i])
  {
    hide VarintBytes, TagBytes, EncodeUpdate, EncodeUpdates, UpdateEncodable;
    ghost var front, payload, rest := dAtA[..end], EncodeUpdate(times, us[k]), EncodeUpdates(times, us[k + 1..]);
    UpdatesFrom(times, us, k);
    UpdatesSuffix(times, us, k);
    i := end;
    var size;
    ok, size := MarshalUpdate(times, us[k], dAtA, i);
    if !ok { return; }
    i := i - size;
    assert dAtA[..i] == front[..i] && dAtA[i..] == payload + rest;
    i := PutPrefix(dAtA, i, 1, size);
    assert dAtA[..i] == front[..i];
    assert dAtA[i..] == (TagBytes(1, 2) + (VarintBytes(size) + payload)) + rest;
  }

  method Marshal(times: TimeCodec, r: Request) returns (bytes: Result<seq<byte>>)
    ensures bytes == if Encodable(times, r) then Ok(EncodeUpdates(times, r.marketPriceUpdates)) else Err(BadTime)
  {
    hide EncodeUpdates, Encodable;
    var size := RequestSize(times, r);
    var dAtA := new byte[size];
    var ok, n := MarshalRequest(times, r, dAtA);
    if ok {
      var sent := dAtA[..n];
      assert sent == EncodeUpdates(times, r.marketPriceUpdates);
      bytes := Ok(sent);
    } else {
      bytes := Err(BadTime);
    }
  }

  // ---------------------------------------------------------------- Unmarshal

  /** One iteration of `ExchangePrice.Unmarshal`. */
  method UnmarshalPriceField(times: TimeCodec, m: ExchangePrice, dAtA: seq<byte>, preIndex: nat)
    returns (r: Result<ExchangePrice>, iNdEx: nat)
    requires preIndex < |dAtA| < TWO_63
    ensures match ParseField(PriceSchema(times), m, dAtA[preIndex..], preIndex)
            case Err(e) => r == Err(e)
            case Ok(f) => r == Ok(f.message) && iNdEx == preIndex + f.length
  {
    hide ReadTag, ReadLength, ReadVarint, SkipFrom;
    iNdEx := preIndex;
    var tag := DecodeTag(dAtA, preIndex);
    if tag.Err? { return Err(tag.error), iNdEx; }
    var at := preIndex + tag.value.length;
    SuffixOfSuffix(dAtA, preIndex, at);
    if tag.value.number == 1 || tag.value.number == 3 {
      if tag.value.wireType != 2 { return Err(WrongWireType), iNdEx; }
      var postIndex, start := DecodeLength(dAtA, at);
      if postIndex.Err? { return Err(postIndex.error), iNdEx; }
      SliceOfSuffix(dAtA, at, start, postIndex.value);
      if tag.value.number == 1 {
        return Ok(m.(exchangeId := dAtA[start..postIndex.value])), postIndex.value;
      }
      var t := times.decode(dAtA[start..postIndex.value]);
      if t.None? { return Err(BadTime), iNdEx; }
      return Ok(m.(lastUpdateTime := t)), postIndex.value;
    } else if tag.value.number == 2 {
      if tag.value.wireType != 0 { return Err(WrongWireType), iNdEx; }
      var v, next := DecodeVarint(dAtA, at, 64);
      if v.Err? { return Err(v.error), iNdEx; }
      return Ok(m.(price := v.value)), next;
    } else {
      var next := SkipUnknown(dAtA, preIndex);
      if next.Err? { return Err(next.error), iNdEx; }
      return Ok(m), next.value;
    }
  }

  method UnmarshalPrice(times: TimeCodec, m0: ExchangePrice, dAtA: seq<byte>) returns (r: Result<ExchangePrice>)
    requires |dAtA| < TWO_63
    ensures r == Parse(PriceSchema(times), m0, dAtA, 0)
  {
    hide Parse, ParseField, ParseFrom, PriceSchema;
    var m, iNdEx := m0, 0;
    ParseEnds(PriceSchema(times), m, dAtA);
    while iNdEx < |dAtA|
      invariant iNdEx <= |dAtA|
      invariant ParseFrom(PriceSchema(times), m0, dAtA, 0) == ParseFrom(PriceSchema(times), m, dAtA, iNdEx)
    {
      ParseStep(PriceSchema(times), m, dAtA, iNdEx);
      var field, next := UnmarshalPriceField(times, m, dAtA, iNdEx);
      if field.Err? { return field; }
      m, iNdEx := field.value, next;
    }
    ParseEnds(PriceSchema(times), m, dAtA);
    return Ok(m);
  }

  /** One iteration of `MarketPriceUpdate.Unmarshal`. */
  method UnmarshalUpdateField(times: TimeCodec, m: MarketPriceUpdate, dAtA: seq<byte>, preIndex: nat)
    returns (r: Result<MarketPriceUpdate>, iNdEx: nat)
    requires preIndex < |dAtA| < TWO_63
    ensures match ParseField(UpdateSchema(times), m, dAtA[preIndex..], preIndex)
            case Err(e) => r == Err(e)
            case Ok(f) => r == Ok(f.message) && iNdEx == preIndex + f.length
  {
    hide ReadTag, ReadLength, ReadVarint, SkipFrom, Parse, PriceSchema;
    iNdEx := preIndex;
    var tag := DecodeTag(dAtA, preIndex);
    if tag.Err? { return Err(tag.error), iNdEx; }
    var at := preIndex + tag.value.length;
    assert dAtA[preIndex..][at - preIndex..] == dAtA[at..];
    if tag.value.number == 1 {
      if tag.value.wireType != 0 { return Err(WrongWireType), iNdEx; }
      var v, next := DecodeVarint(dAtA, at, 32);
      if v.Err? { return Err(v.error), iNdEx; }
      return Ok(m.(marketId := v.value)), next;
    } else if tag.value.number == 2 {
      if tag.value.wireType != 2 { return Err(WrongWireType), iNdEx; }
      var postIndex, start := DecodeLength(dAtA, at);
      if postIndex.Err? { return Err(postIndex.error), iNdEx; }
      SliceWithin(dAtA, at, start, postIndex.value);
      var price := UnmarshalPrice(times, NO_PRICE, dAtA[start..postIndex.value]);
      if price.Err? { return Err(price.error), iNdEx; }
      return Ok(m.(exchangePrices := m.exchangePrices + [price.value])), postIndex.value;
    } else {
      var next := SkipUnknown(dAtA, preIndex);
      if next.Err? { return Err(next.error), iNdEx; }
      return Ok(m), next.value;
    }
  }

  method UnmarshalUpdate(times: TimeCodec, m0: MarketPriceUpdate, dAtA: seq<byte>) returns (r: Result<MarketPriceUpdate>)
    requires |dAtA| < TWO_63
    ensures r == Parse(UpdateSchema(times), m0, dAtA, 0)
  {
    hide Parse, ParseField, ParseFrom, UpdateSchema;
    var m, iNdEx := m0, 0;
    ParseEnds(UpdateSchema(times), m, dAtA);
    while iNdEx < |dAtA|
      invariant iNdEx <= |dAtA|
      invariant ParseFrom(UpdateSchema(times), m0, dAtA, 0) == ParseFrom(UpdateSchema(times), m, dAtA, iNdEx)
    {
      ParseStep(UpdateSchema(times), m, dAtA, iNdEx);
      var field, next := UnmarshalUpdateField(times, m, dAtA, iNdEx);
      if field.Err? { return field; }
      m, iNdEx := field.value, next;
    }
    ParseEnds(UpdateSchema(times), m, dAtA);
    return Ok(m);
  }

  /** One iteration of `UpdateMarketPricesRequest.Unmarshal`. */
  method UnmarshalRequestField(times: TimeCodec, m: Request, dAtA: seq<byte>, preIndex: nat)
    returns (r: Result<Request>, iNdEx: nat)
    requires preIndex < |dAtA| < TWO_63
    ensures match ParseField(RequestSchema(times), m, dAtA[preIndex..], preIndex)
            case Err(e) => r == Err(e)
            case Ok(f) => r == Ok(f.message) && iNdEx == preIndex + f.length
  {
    hide ReadTag, ReadLength, ReadVarint, SkipFrom, Parse, UpdateSchema;
    iNdEx := preIndex;
    var tag := DecodeTag(dAtA, preIndex);
    if tag.Err? { return Err(tag.error), iNdEx; }
    if tag.value.number == 1 {
      if tag.value.wireType != 2 { return Err(WrongWireType), iNdEx; }
      var at := preIndex + tag.value.length;
      assert dAtA[preIndex..][at - preIndex..] == dAtA[at..];
      var postIndex, start := DecodeLength(dAtA, at);
      if postIndex.Err? { return Err(postIndex.error), iNdEx; }
      SliceWithin(dAtA, at, start, postIndex.value);
      var update := UnmarshalUpdate(times, NO_UPDATE, dAtA[start..postIndex.value]);
      if update.Err? { return Err(update.error), iNdEx; }
      return Ok(Request(m.marketPriceUpdates + [update.value])), postIndex.value;
    } else {
      var next := SkipUnknown(dAtA, preIndex);
      if next.Err? { return Err(next.error), iNdEx; }
      return Ok(m), next.value;
    }
  }

  method UnmarshalRequest(times: TimeCodec, m0: Request, dAtA: seq<byte>) returns (r: Result<Request>)
    requires |dAtA| < TWO_63
    ensures r == Parse(RequestSchema(times), m0, dAtA, 0)
  {
    hide Parse, ParseField, ParseFrom, RequestSchema;
    var m, iNdEx := m0, 0;
    ParseEnds(RequestSchema(times), m, dAtA);
    while iNdEx < |dAtA|
      invariant iNdEx <= |dAtA|
      invariant ParseFrom(RequestSchema(times), m0, dAtA, 0) == ParseFrom(RequestSchema(times), m, dAtA, iNdEx)
    {
      ParseStep(RequestSchema(times), m, dAtA, iNdEx);
      var field, next := UnmarshalRequestField(times, m, dAtA, iNdEx);
      if field.Err? { return field; }
      m, iNdEx := field.value, next;
    }
    ParseEnds(RequestSchema(times), m, dAtA);
    return Ok(m);
  }

  /** What the server receives is what the client sent, for every request that can be sent. */
  method SendAndReceive(times: TimeCodec, r: Request) returns (received: Result<Request>)
    requires ReadsBack(times) && |EncodeUpdates(times, r.marketPriceUpdates)| < TWO_63
    ensures received == if Encodable(times, r) then Ok(r) else Err(BadTime)
  {
    hide EncodeUpdates, Encodable, Parse, ReadsBack;
    var dAtA := Marshal(times, r);
    if dAtA.Err? { return Err(dAtA.error); }
    RoundTrip(times, r);
    received := UnmarshalRequest(times, NO_REQUEST, dAtA.value);
  }
}
