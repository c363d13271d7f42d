/** How a converted price of zero comes into the daemon's cache, and what it does to the flush. */
module ZeroPrices {
  import opened Bits
  import opened ClientPriceCache
  import opened ExchangeSubscribers
  import opened FlushRefinement
  import opened MarketParams
  import opened Numerals
  import opened Options
  import opened PriceConversion
  import opened PriceMath
  import opened PriceStamps
  import opened ServerPriceCache
  import opened Times

  lemma StoredCell(c: ClientCache, exchange: ExchangeId, p: MarketPrice, m: MarketId, e: ExchangeId)
    requires exchange in c
    ensures CopyOf(Stored(c, exchange, Some(p)), m, e)
         == if e == exchange && m == p.marketId then Some(Newer(Entry(c[exchange], m), p.stamp)) else CopyOf(c, m, e)
  {
  }

  /** After a price is stored the cache can be sent exactly if what its entry holds then and every other price is not zero. */
  lemma SendableAfterStoring(c: ClientCache, exchange: ExchangeId, p: MarketPrice)
    requires exchange in c
    ensures Sendable(Stored(c, exchange, Some(p))) <==>
              && Newer(Entry(c[exchange], p.marketId), p.stamp).price != 0
              && forall m, e :: !(e == exchange && m == p.marketId) && CopyOf(c, m, e).Some? ==> CopyOf(c, m, e).value.price != 0
  {
    hide CopyOf, Newer, Entry;
    var next := Stored(c, exchange, Some(p));
    forall m, e
      ensures CopyOf(next, m, e)
           == if e == exchange && m == p.marketId then Some(Newer(Entry(c[exchange], m), p.stamp)) else CopyOf(c, m, e)
    {
      StoredCell(c, exchange, p, m, e);
    }
    assert CopyOf(next, p.marketId, exchange).Some?;
  }

  /**
   A fetched price of less than one unit after the adjustment, and later than the entry, is stored as zero: then
   nothing of the cache can be sent, whatever other exchanges and markets hold.
   */
  lemma SmallProductBlocks(details: ConversionDetails, c: ClientCache, exchange: ExchangeId, update: MarketPrice, cutoff: Time,
                           price: Option<MarketPrice>)
    requires exchange in c && details.adjustBy.Some? && !details.invert
    requires Converts(Some(details), c, update, cutoff, price)
    requires update.stamp.time > Entry(c[exchange], update.marketId).time
    requires var adjustBy := details.adjustBy.value;
             forall index: uint64, count: nat | IsIndex(c, adjustBy.marketId, cutoff, index, count) ::
               count >= adjustBy.minExchanges && RealProduct(update.stamp.price, index, adjustBy.exponent) < 1.0
    ensures price == Some(MarketPrice(update.marketId, Stamp(update.stamp.time, 0)))
    ensures !Sendable(Stored(c, exchange, price))
  {
    hide IsIndex, RealProduct, Multiply, WideMultiply, Entry, Sendable, Stored;
    var adjustBy := details.adjustBy.value;
    var index: uint64, count: nat :|
      && IsIndex(c, adjustBy.marketId, cutoff, index, count)
      && price == WithPrice(update, Converted(Some(details), update.stamp.price, index, count));
    MultiplyZero(update.stamp.price, details.exponent, index, adjustBy.exponent);
    assert Multiply(update.stamp.price, details.exponent, index, adjustBy.exponent) == 0;
    assert Converted(Some(details), update.stamp.price, index, count) == Some(0);
    SendableAfterStoring(c, exchange, price.value);
  }

  /** One unit times one unit of a hundred-thousandth is such a product. */
  lemma SmallProduct()
    ensures Multiply(1, 0, 1, -5) == 0
  {
    MultiplyZero(1, 0, 1, -5);
    assert Pow(10, 5) == 100_000;
  }

  /** A price is encoded, and then the cache is flushed. */
  method StoreAndFlush(encoder: PriceEncoder, client: ExchangeToMarketPrices, server: MarketToExchangePrices,
                       update: MarketPrice, cutoff: Time, rpc: Rpc)
    returns (err: Option<FlushError>, price: Option<MarketPrice>)
    requires encoder.Valid() && encoder.exchangeId in client.exchangeMarketPrices
    requires Ordered(State(client.exchangeMarketPrices, server.marketToExchangePrices, Idle, {}))
    modifies client, server
    ensures Converts(DetailsOf(encoder.config, encoder.markets, update.marketId), old(client.exchangeMarketPrices),
                     update, cutoff, price)
    ensures client.exchangeMarketPrices == Stored(old(client.exchangeMarketPrices), encoder.exchangeId, price)
    ensures err.None? <==> Sendable(client.exchangeMarketPrices) && rpc.Answered?
    ensures price.Some? && price.value.stamp.price == 0
            && price.value.stamp.time > Entry(old(client.exchangeMarketPrices)[encoder.exchangeId], price.value.marketId).time ==>
              err.Some? && server.marketToExchangePrices == old(server.marketToExchangePrices)
  {
    hide Converts, Sendable, Ordered, Entry;
    ghost var s := State(client.exchangeMarketPrices, server.marketToExchangePrices, Idle, {});
    price := PriceConversion.UpdatePrice(encoder, client, update, cutoff);
    if price.Some? {
      StoringKeepsOrder(s, encoder.exchangeId, price.value);
      SendableAfterStoring(s.client, encoder.exchangeId, price.value);
    }
    err := RunPriceUpdaterTaskLoop(client, server, rpc);
  }

  lemma StoringKeepsOrder(s: State, exchange: ExchangeId, p: MarketPrice)
    requires Ordered(s) && s.flush.Idle? && s.pending == {} && exchange in s.client
    ensures Ordered(s.(client := Stored(s.client, exchange, Some(p))))
  {
    hide Ordered;
    UpdateKeeps(s, exchange, p, s.(client := Stored(s.client, exchange, Some(p))));
  }
}
