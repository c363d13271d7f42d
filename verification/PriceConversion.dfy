/** What a price encoder makes of a fetched price before it enters the daemon's cache. */
module PriceConversion {
  import opened Bits
  import opened ClientPriceCache
  import opened ExchangeSubscribers
  import opened MarketParams
  import opened Options
  import opened PriceMath
  import opened PriceStamps
  import opened Times

  /**
   The converted price: for an adjusting market, `index` is its median and `count` the number of
   exchanges that have a fresh price of it. None for an unknown market or too few such exchanges.
   */
  function Converted(details: Option<ConversionDetails>, price: uint64, index: uint64, count: nat): Option<uint64> {
    if details.None? then None else
      var d := details.value;
      if d.adjustBy.None? then Some(if d.invert then Invert(price, d.exponent) else price)
      else if count < d.adjustBy.value.minExchanges then None
      else if d.invert then Some(Divide(index, d.adjustBy.value.exponent, price, d.exponent))
      else Some(Multiply(price, d.exponent, index, d.adjustBy.value.exponent))
  }

  /** `index` and `count` are the index price of a market in the cache, or zero without one. */
  ghost predicate IsIndex(c: ClientCache, market: MarketId, cutoff: Time, index: uint64, count: nat) {
    && count == |Fresh(Column(c, market), cutoff)|
    && (if count == 0 then index == 0 else IndexPrice(Column(c, market), cutoff) == Some(index))
  }

  /** The update with its converted price, if there is one. */
  function WithPrice(update: MarketPrice, price: Option<uint64>): Option<MarketPrice> {
    if price.None? then None else Some(MarketPrice(update.marketId, Stamp(update.stamp.time, price.value)))
  }

  /** What the conversion makes of an update with the given details and cache. */
  ghost predicate Converts(details: Option<ConversionDetails>, c: ClientCache, update: MarketPrice, cutoff: Time, r: Option<MarketPrice>) {
    if details.Some? && details.value.adjustBy.Some?
    then exists index: uint64, count: nat ::
           && IsIndex(c, details.value.adjustBy.value.marketId, cutoff, index, count)
           && r == WithPrice(update, Converted(details, update.stamp.price, index, count))
    else r == WithPrice(update, Converted(details, update.stamp.price, 0, 0))
  }

  method ConvertPriceUpdate(encoder: PriceEncoder, cache: ExchangeToMarketPrices, update: MarketPrice, cutoff: Time)
    returns (r: Option<MarketPrice>)
    requires encoder.Valid()
    ensures Converts(DetailsOf(encoder.config, encoder.markets, update.marketId), cache.exchangeMarketPrices, update, cutoff, r)
  {
    hide IndexPrice, Fresh, Invert, Divide, Multiply, DetailsOf;
    var details := encoder.GetPriceConversionDetailsForMarket(update.marketId);
    if details.None? { return None; }
    var d := details.value;
    if d.adjustBy.None? {
      var price: uint64 := if d.invert then Invert(update.stamp.price, d.exponent) else update.stamp.price;
      return Some(MarketPrice(update.marketId, Stamp(update.stamp.time, price)));
    }
    var adjustBy := d.adjustBy.value;
    var index, numPrices := cache.GetIndexPrice(adjustBy.marketId, cutoff);
    NoIndex(Column(cache.exchangeMarketPrices, adjustBy.marketId), cutoff);
    assert IsIndex(cache.exchangeMarketPrices, adjustBy.marketId, cutoff, index, numPrices);
    if numPrices < adjustBy.minExchanges { return None; }
    var price: uint64 := if d.invert then Divide(index, adjustBy.exponent, update.stamp.price, d.exponent)
                         else Multiply(update.stamp.price, d.exponent, index, adjustBy.exponent);
    return Some(MarketPrice(update.marketId, Stamp(update.stamp.time, price)));
  }

  lemma NoIndex(m: map<ExchangeId, Stamp>, cutoff: Time)
    ensures IndexPrice(m, cutoff).None? <==> |Fresh(m, cutoff)| == 0
  {
  }

  /** The converted price of an unadjusted market: the price itself, or its inverse. */
  ghost predicate UnadjustedPrice(d: ConversionDetails, price: uint64, r: uint64) {
    if !d.invert then r == price
    else if price == 0 then r == 0
    else IsCut(r, ExactInverse(price, d.exponent), 1.0 + Slack(d.exponent), Slack(d.exponent))
  }

  /** The converted price of an adjusted market: the index price times the price rounded down, or divided by it. */
  ghost predicate AdjustedPrice(d: ConversionDetails, adjustBy: AdjustBy, price: uint64, index: uint64, r: uint64) {
    if !d.invert then IsCut(r, RealProduct(price, index, adjustBy.exponent), 1.0, 0.0)
    else if price == 0 then r == 0
    else IsCut(r, ExactQuotient(index, adjustBy.exponent, price, d.exponent), 1.0 + Slack(d.exponent), Slack(d.exponent))
  }

  /**
   The result in terms of exact numbers: none for an unknown market, or exactly if fewer exchanges than the
   minimum have a fresh price of the adjusting market; otherwise for the market and time of the update.
   */
  lemma ConversionIs(details: Option<ConversionDetails>, c: ClientCache, update: MarketPrice, cutoff: Time, r: Option<MarketPrice>)
    requires Converts(details, c, update, cutoff, r)
    ensures details.None? ==> r.None?
    ensures r.Some? ==> r.value.marketId == update.marketId && r.value.stamp.time == update.stamp.time
    ensures details.Some? && details.value.adjustBy.None? ==>
              r.Some? && UnadjustedPrice(details.value, update.stamp.price, r.value.stamp.price)
    ensures details.Some? && details.value.adjustBy.Some? ==>
              var d, adjustBy := details.value, details.value.adjustBy.value;
              exists index: uint64, count: nat ::
                && IsIndex(c, adjustBy.marketId, cutoff, index, count)
                && (r.None? <==> count < adjustBy.minExchanges)
                && (r.Some? ==> AdjustedPrice(d, adjustBy, update.stamp.price, index, r.value.stamp.price))
  {
    hide IsIndex, IsCut, Invert, Divide, Multiply, ExactInverse, ExactQuotient, RealProduct, Slack;
    if details.Some? {
      var d, price := details.value, update.stamp.price;
      InvertCut(price, d.exponent);
      if d.adjustBy.Some? {
        var adjustBy := d.adjustBy.value;
        var index: uint64, count: nat :|
          IsIndex(c, adjustBy.marketId, cutoff, index, count) && r == WithPrice(update, Converted(details, price, index, count));
        MultiplyCut(price, d.exponent, index, adjustBy.exponent);
        DivideCut(index, adjustBy.exponent, price, d.exponent);
      }
    }
  }

  function Stored(c: ClientCache, exchange: ExchangeId, price: Option<MarketPrice>): ClientCache
    requires exchange in c
  {
    if price.None? then c else c[exchange := Update(c[exchange], price.value.marketId, price.value.stamp)]
  }

  /** `UpdatePrice` of the encoder: whatever price comes out is stored, zero too. */
  method UpdatePrice(encoder: PriceEncoder, cache: ExchangeToMarketPrices, update: MarketPrice, cutoff: Time)
    returns (price: Option<MarketPrice>)
    requires encoder.Valid() && encoder.exchangeId in cache.exchangeMarketPrices
    modifies cache
    ensures Converts(DetailsOf(encoder.config, encoder.markets, update.marketId), old(cache.exchangeMarketPrices), update, cutoff, price)
    ensures cache.exchangeMarketPrices == Stored(old(cache.exchangeMarketPrices), encoder.exchangeId, price)
  {
    hide Converts;
    price := ConvertPriceUpdate(encoder, cache, update, cutoff);
    if price.None? { return; }
    cache.UpdatePrice(encoder.exchangeId, price.value);
  }
}
