/** The price fetcher and the price encoder of an exchange, as far as they hold its configuration. */
module ExchangeSubscribers {
  import opened Bits
  import opened MarketParams
  import opened MarketRing
  import opened Options

  /** How a price of a market is converted. */
  datatype AdjustBy = AdjustBy(marketId: MarketId, exponent: int, minExchanges: uint32)
  datatype ConversionDetails = ConversionDetails(invert: bool, exponent: int, adjustBy: Option<AdjustBy>)

  /** The details for a market of an exchange whose references resolve; none for another market. */
  function DetailsOf(config: ExchangeConfig, markets: map<MarketId, MarketCommon>, id: MarketId): Option<ConversionDetails>
    requires MarketsOn(config) <= markets.Keys
  {
    if id !in config.markets then None else
      var c := config.markets[id];
      MarketsOnHas(config);
      Some(ConversionDetails(c.invert, markets[id].exponent,
        if c.adjustByMarket.None? then None
        else var other := c.adjustByMarket.value;
             Some(AdjustBy(other, markets[other].exponent, markets[other].minExchanges))))
  }

  class PriceEncoder {
    const exchangeId: ExchangeId
    var config: ExchangeConfig
    var markets: map<MarketId, MarketCommon>

    /** Every market of the exchange, and every market that adjusts one, is known. */
    ghost predicate Valid()
      reads this
    {
      config.id == exchangeId && MarketsOn(config) <= markets.Keys
    }

    constructor (exchangeId: ExchangeId)
      ensures Valid() && this.exchangeId == exchangeId
      ensures config == ExchangeConfig(exchangeId, map[]) && markets == map[]
    {
      this.exchangeId := exchangeId;
      config, markets := ExchangeConfig(exchangeId, map[]), map[];
    }

    method UpdateMutableExchangeConfig(newConfig: ExchangeConfig, newMarkets: seq<MarketCommon>) returns (ok: bool)
      requires Valid()
      modifies this
      ensures Valid()
      ensures ok <==> newConfig.id == exchangeId && ValidUpdate(newConfig, newMarkets)
      ensures ok ==> config == newConfig && markets == ById(newMarkets)
      ensures !ok ==> config == old(config) && markets == old(markets)
    {
      if newConfig.id != exchangeId { return false; }
      var valid := ValidateUpdate(newConfig, newMarkets);
      if !valid { return false; }
      var known := IndexById(newMarkets);
      config, markets := newConfig, known;
      return true;
    }

    /** Conversion details exist exactly for the markets of the exchange: no reference is left unresolved. */
    method GetPriceConversionDetailsForMarket(id: MarketId) returns (r: Option<ConversionDetails>)
      requires Valid()
      ensures r == DetailsOf(config, markets, id)
      ensures r.Some? <==> id in config.markets
      ensures r.Some? ==>
                var (c, adjust) := (config.markets[id], config.markets[id].adjustByMarket);
                && id in markets && r.value.invert == c.invert && r.value.exponent == markets[id].exponent
                && (adjust.None? <==> r.value.adjustBy.None?)
                && (adjust.Some? ==>
                      && adjust.value in markets
                      && r.value.adjustBy.value
                         == AdjustBy(adjust.value, markets[adjust.value].exponent, markets[adjust.value].minExchanges))
    {
      if id !in config.markets { return None; }
      var marketConfig := config.markets[id];
      var adjustBy := None;
      if marketConfig.adjustByMarket.Some? {
        var other := marketConfig.adjustByMarket.value;
        assert other in MarketsOn(config);
        if other !in markets { return None; }
        adjustBy := Some(AdjustBy(other, markets[other].exponent, markets[other].minExchanges));
      }
      assert id in MarketsOn(config);
      if id !in markets { return None; }
      return Some(ConversionDetails(marketConfig.invert, markets[id].exponent, adjustBy));
    }
  }

  lemma UpdateCovers(config: ExchangeConfig, markets: seq<MarketCommon>)
    requires ValidUpdate(config, markets)
    ensures MarketsOn(config) <= ById(markets).Keys
  {
  }

  class PriceFetcher {
    const exchangeId: ExchangeId
    const isMultiMarket: bool
    const maxQueries: nat
    var config: ExchangeConfig
    var exponents: map<MarketId, int>
    var ring: Ring

    /** The ring holds the markets of the exchange in order. */
    ghost predicate Valid()
      reads this
    {
      && config.id == exchangeId && MarketsOn(config) <= exponents.Keys
      && IsListing(ring.values, config.markets.Keys) && ring.Valid()
    }

    constructor (exchangeId: ExchangeId, isMultiMarket: bool, maxQueries: nat)
      ensures Valid() && this.exchangeId == exchangeId
      ensures config == ExchangeConfig(exchangeId, map[])
    {
      this.exchangeId, this.isMultiMarket, this.maxQueries := exchangeId, isMultiMarket, maxQueries;
      config, exponents, ring := ExchangeConfig(exchangeId, map[]), map[], Ring([], 0);
    }

    method UpdateMutableExchangeConfig(newConfig: ExchangeConfig, newMarkets: seq<MarketCommon>) returns (ok: bool)
      requires Valid()
      modifies this
      ensures Valid()
      ensures ok <==> newConfig.id == exchangeId && ValidUpdate(newConfig, newMarkets)
      ensures ok ==> config == newConfig && ring.at == 0
                     && exponents == map m | m in ById(newMarkets) :: ById(newMarkets)[m].exponent
      ensures !ok ==> config == old(config) && exponents == old(exponents) && ring == old(ring)
    {
      hide ValidUpdate, MarketsOn, IsListing, ById;
      if newConfig.id != exchangeId { return false; }
      var valid := ValidateUpdate(newConfig, newMarkets);
      if !valid { return false; }
      UpdateCovers(newConfig, newMarkets);
      var known := IndexById(newMarkets);
      var ids := GetSortedKeys(newConfig.markets.Keys);
      var newRing := NewRing(ids);
      config, exponents, ring := newConfig, map m | m in known :: known[m].exponent, newRing;
      return true;
    }

    /** As many queries as the exchange allows, but at most one for each market. */
    method GetNumQueriesPerTaskLoop() returns (n: nat)
      requires Valid()
      ensures n == if isMultiMarket then 1 else if maxQueries < |ring.values| then maxQueries else |ring.values|
    {
      ListingDistinct(ring.values, config.markets.Keys);
      if isMultiMarket { return 1; }
      var marketIds := |config.markets.Keys|;
      return if maxQueries < marketIds then maxQueries else marketIds;
    }

    /** Read under the second lock: all markets at once, or the next ones on the ring; none if the ring is empty then. */
    method NextMarkets(n: nat) returns (markets: Option<seq<MarketId>>)
      requires Valid()
      modifies this`ring
      ensures Valid()
      ensures markets.None? <==> !isMultiMarket && n > 0 && config.markets == map[]
      ensures isMultiMarket ==> markets == Some(ring.values) && ring == old(ring)
      ensures !isMultiMarket && markets.Some? ==>
                && (n > 0 ==> old(ring).values != [])
                && markets.value == Batch(old(ring), n) && ring == Advanced(old(ring), n)
      ensures markets.None? ==> ring == old(ring)
    {
      ListingDistinct(ring.values, config.markets.Keys);
      NoKeys(config.markets);
      if isMultiMarket {
        var ids := GetSortedKeys(config.markets.Keys);
        ListingUnique(ids, ring.values, config.markets.Keys);
        return Some(ids);
      }
      if n > 0 && |ring.values| == 0 { return None; }
      var ids, next := Take(ring, n);
      ring := next;
      return Some(ids);
    }

    method UpdateAll(changes: seq<Change>)
      requires Valid()
      modifies this
      ensures Valid() && config == Applied(exchangeId, old(config), changes)
      ensures if AnyAccepted(exchangeId, changes) then ring.at == 0 else ring == old(ring)
    {
      hide ValidUpdate, IsListing, ById;
      for i := 0 to |changes|
        invariant Valid() && config == Applied(exchangeId, old(config), changes[..i])
        invariant if AnyAccepted(exchangeId, changes[..i]) then ring.at == 0 else ring == old(ring)
      {
        assert changes[..i + 1] == changes[..i] + [changes[i]];
        var _ := UpdateMutableExchangeConfig(changes[i].config, changes[i].markets);
      }
      assert changes[..|changes|] == changes;
    }

    /**
     The number of queries is read under one lock and the markets under another; configurations may arrive in
     between. The task loop crashes exactly if it is to query markets one by one, had some when it counted them, and
     has none any more.
     */
    method GetTaskLoopDefinition(changes: seq<Change>) returns (markets: Option<seq<MarketId>>)
      requires Valid()
      modifies this
      ensures Valid() && config == Applied(exchangeId, old(config), changes)
      ensures markets.None? <==>
                !isMultiMarket && maxQueries > 0 && old(config).markets != map[] && config.markets == map[]
      ensures isMultiMarket ==> markets == Some(ring.values)
      ensures !isMultiMarket && markets.Some? ==>
                var n := if maxQueries < |old(config).markets| then maxQueries else |old(config).markets|;
                var before := Ring(ring.values, if AnyAccepted(exchangeId, changes) then 0 else old(ring.at));
                && (n > 0 ==> before.values != []) && markets.value == Batch(before, n) && ring == Advanced(before, n)
    {
      hide AnyAccepted, Applied, IsListing;
      ListingDistinct(ring.values, config.markets.Keys);
      NoKeys(config.markets);
      var n := GetNumQueriesPerTaskLoop();
      UpdateAll(changes);
      markets := NextMarkets(n);
    }
  }

  /** A configuration that arrives, with the markets it refers to. */
  datatype Change = Change(config: ExchangeConfig, markets: seq<MarketCommon>)

  ghost predicate Accepted(exchangeId: ExchangeId, change: Change) {
    change.config.id == exchangeId && ValidUpdate(change.config, change.markets)
  }

  ghost predicate AnyAccepted(exchangeId: ExchangeId, changes: seq<Change>) {
    exists c :: c in changes && Accepted(exchangeId, c)
  }

  /** The last accepted configuration. */
  ghost function Applied(exchangeId: ExchangeId, config: ExchangeConfig, changes: seq<Change>): ExchangeConfig {
    if changes == [] then config
    else
      var last := changes[|changes| - 1];
      if Accepted(exchangeId, last) then last.config else Applied(exchangeId, config, changes[..|changes| - 1])
  }

  lemma NoKeys<K, V>(m: map<K, V>)
    ensures |m.Keys| == |m| && (|m| == 0 <==> m == map[])
  {
    assert |m.Keys| == |m|;
  }
}
