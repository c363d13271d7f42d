/** The price daemon's cache, exchange by exchange, of the prices of every market. */
module ClientPriceCache {
  import opened Bits
  import opened MarketParams
  import opened Median
  import opened Options
  import opened PriceStamps
  import opened Times

  type ClientCache = map<ExchangeId, map<MarketId, Stamp>>

  /** `MarketPriceTimestamp`. */
  datatype MarketPrice = MarketPrice(marketId: MarketId, stamp: Stamp)

  /** The prices of one market, by exchange. */
  function Column(c: ClientCache, market: MarketId): map<ExchangeId, Stamp> {
    map e | e in c && market in c[e] :: c[e][market]
  }

  lemma ColumnIs(c: ClientCache, market: MarketId)
    ensures forall e :: e in Column(c, market) <==> e in c && market in c[e]
    ensures forall e | e in Column(c, market) :: Column(c, market)[e] == c[e][market]
  {
  }

  /** `ps` holds every entry of `m`, each once. */
  ghost predicate Lists(ps: seq<MarketPrice>, m: map<MarketId, Stamp>) {
    && (forall i, j :: 0 <= i < j < |ps| ==> ps[i].marketId != ps[j].marketId)
    && (forall p | p in ps :: p.marketId in m && m[p.marketId] == p.stamp)
    && (forall k | k in m :: MarketPrice(k, m[k]) in ps)
  }

  ghost predicate Distinct<T>(s: seq<T>) {
    forall i, j :: 0 <= i < j < |s| ==> s[i] != s[j]
  }

  /** `MarketToPrice.GetAllPrices`. */
  method GetMarketPrices(m: map<MarketId, Stamp>) returns (prices: seq<MarketPrice>)
    ensures Lists(prices, m)
  {
    prices := [];
    var left := m.Keys;
    while left != {}
      invariant left <= m.Keys
      invariant Lists(prices, m - left)
    {
      var k :| k in left;
      prices := ListStep(m, left, prices, k);
      left := left - {k};
    }
    assert m - {} == m;
  }

  method ListStep(m: map<MarketId, Stamp>, left: set<MarketId>, prices: seq<MarketPrice>, k: MarketId)
    returns (next: seq<MarketPrice>)
    requires k in left && left <= m.Keys && Lists(prices, m - left)
    ensures Lists(next, m - (left - {k}))
  {
    next := prices + [MarketPrice(k, m[k])];
    assert next[|prices|] == MarketPrice(k, m[k]);
    forall x | x in m - (left - {k}) ensures MarketPrice(x, m[x]) in next {
      if x != k { assert x in m - left; }
    }
  }

  class ExchangeToMarketPrices {
    var exchangeMarketPrices: ClientCache

    constructor (exchangeMarketPrices: ClientCache)
      ensures this.exchangeMarketPrices == exchangeMarketPrices
    {
      this.exchangeMarketPrices := exchangeMarketPrices;
    }

    /** A price of an unknown exchange makes the daemon panic: callers must not send one. */
    method UpdatePrice(exchangeId: ExchangeId, marketPrice: MarketPrice)
      requires exchangeId in exchangeMarketPrices
      modifies this
      ensures exchangeMarketPrices ==
              old(exchangeMarketPrices)[exchangeId :=
                Update(old(exchangeMarketPrices)[exchangeId], marketPrice.marketId, marketPrice.stamp)]
    {
      var prices := Update(exchangeMarketPrices[exchangeId], marketPrice.marketId, marketPrice.stamp);
      exchangeMarketPrices := exchangeMarketPrices[exchangeId := prices];
    }

    method GetAllPrices() returns (all: map<ExchangeId, seq<MarketPrice>>)
      ensures all.Keys == exchangeMarketPrices.Keys
      ensures forall e | e in all :: Lists(all[e], exchangeMarketPrices[e])
    {
      hide Lists;
      all := map[];
      var left := exchangeMarketPrices.Keys;
      while left != {}
        invariant left <= exchangeMarketPrices.Keys
        invariant all.Keys == exchangeMarketPrices.Keys - left
        invariant forall e | e in all :: Lists(all[e], exchangeMarketPrices[e])
      {
        var exchangeId :| exchangeId in left;
        var prices := GetMarketPrices(exchangeMarketPrices[exchangeId]);
        all := all[exchangeId := prices];
        left := left - {exchangeId};
      }
    }

    /** The index price of a market: the median of its fresh prices and their number, or zero and zero. */
    method GetIndexPrice(marketId: MarketId, cutoffTime: Time) returns (median: uint64, count: nat)
      ensures match IndexPrice(Column(exchangeMarketPrices, marketId), cutoffTime)
              case None => median == 0 && count == 0
              case Some(p) => median == p && count == |Fresh(Column(exchangeMarketPrices, marketId), cutoffTime)| > 0
    {
      hide IndexPrice, MedianOf, Visited, Fresh;
      var prices: seq<uint64> := [];
      ghost var order := [];
      ghost var column := Column(exchangeMarketPrices, marketId);
      var left := exchangeMarketPrices.Keys;
      VisitStarts(column, cutoffTime, left);
      while left != {}
        invariant left <= exchangeMarketPrices.Keys
        invariant Visited(column, cutoffTime, left, order, prices)
      {
        var e :| e in left;
        VisitStep(column, cutoffTime, left, order, prices, e);
        left := left - {e};
        if marketId in exchangeMarketPrices[e] && !(exchangeMarketPrices[e][marketId].time < cutoffTime) {
          prices := prices + [exchangeMarketPrices[e][marketId].price];
          order := order + [e];
        }
      }
      VisitEnds(column, cutoffTime, order, prices);
      if |prices| == 0 { return 0, 0; }
      var r := Median.Median(UINT64, prices);
      return r.value, |prices|;
    }
  }

  /** A cache needs at least one exchange, and none twice; every exchange starts without prices. */
  method NewExchangeToMarketPrices(exchangeIds: seq<ExchangeId>) returns (r: Option<ExchangeToMarketPrices>)
    ensures r.Some? <==> exchangeIds != [] && Distinct(exchangeIds)
    ensures r.Some? ==> fresh(r.value) && r.value.exchangeMarketPrices == map e | e in exchangeIds :: map[]
  {
    if |exchangeIds| == 0 { return None; }
    var prices: ClientCache := map[];
    for i := 0 to |exchangeIds|
      invariant prices == map e | e in exchangeIds[..i] :: map[]
      invariant Distinct(exchangeIds[..i])
    {
      if exchangeIds[i] in prices { return None; }
      prices := prices[exchangeIds[i] := map[]];
    }
    assert exchangeIds[..|exchangeIds|] == exchangeIds;
    var cache := new ExchangeToMarketPrices(prices);
    return Some(cache);
  }
}
