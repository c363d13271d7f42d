/** The server's cache, market by market, of the prices of every exchange. */
module ServerPriceCache {
  import opened Bits
  import opened MarketParams
  import opened Median
  import opened Options
  import opened PriceStamps
  import opened PricefeedMessages
  import opened Sorting
  import opened Times

  type Cache = map<MarketId, map<ExchangeId, Stamp>>

  // ---------------------------------------------------------------- specification of updates

  predicate Timed(ps: seq<ExchangePrice>) {
    forall p | p in ps :: p.lastUpdateTime.Some?
  }

  predicate AllTimed(us: seq<MarketPriceUpdate>) {
    forall u | u in us :: Timed(u.exchangePrices)
  }

  function StampOf(p: ExchangePrice): Stamp
    requires p.lastUpdateTime.Some?
  {
    Stamp(p.lastUpdateTime.value, p.price)
  }

  function ApplyPrices(m: map<ExchangeId, Stamp>, ps: seq<ExchangePrice>): map<ExchangeId, Stamp>
    requires Timed(ps)
    decreases |ps|
  {
    if ps == [] then m else ApplyPrices(Update(m, ps[0].exchangeId, StampOf(ps[0])), ps[1..])
  }

  /** The exchange prices of a market; none before the first update. */
  function Row(c: Cache, market: uint32): map<ExchangeId, Stamp> {
    if market in c then c[market] else map[]
  }

  function ApplyMarkets(c: Cache, us: seq<MarketPriceUpdate>): Cache
    requires AllTimed(us)
    decreases |us|
  {
    if us == [] then c
    else ApplyMarkets(c[us[0].marketId := ApplyPrices(Row(c, us[0].marketId), us[0].exchangePrices)], us[1..])
  }

  /** The stamps that a list of prices carries for one exchange, in order. */
  function StampsFor(ps: seq<ExchangePrice>, exchange: ExchangeId): seq<Stamp>
    requires Timed(ps)
  {
    if ps == [] then []
    else (if ps[0].exchangeId == exchange then [StampOf(ps[0])] else []) + StampsFor(ps[1..], exchange)
  }

  /** The stamps that a request carries for one market and exchange, in order. */
  function Sent(us: seq<MarketPriceUpdate>, market: uint32, exchange: ExchangeId): seq<Stamp>
    requires AllTimed(us)
  {
    if us == [] then []
    else (if us[0].marketId == market then StampsFor(us[0].exchangePrices, exchange) else [])
         + Sent(us[1..], market, exchange)
  }

  /** A stamp is sent to a market and exchange exactly if a price of an update for the market is for the exchange. */
  lemma {:induction false} SentHas(us: seq<MarketPriceUpdate>, market: uint32, exchange: ExchangeId, s: Stamp)
    requires AllTimed(us)
    ensures s in Sent(us, market, exchange) <==>
              exists u, p :: u in us && u.marketId == market && p in u.exchangePrices && p.exchangeId == exchange
                && p.lastUpdateTime == Some(s.time) && p.price == s.price
  {
    if us != [] {
      StampsForHas(us[0].exchangePrices, exchange, s);
      SentHas(us[1..], market, exchange, s);
      assert us == [us[0]] + us[1..];
    }
  }

  lemma {:induction false} StampsForHas(ps: seq<ExchangePrice>, exchange: ExchangeId, s: Stamp)
    requires Timed(ps)
    ensures s in StampsFor(ps, exchange) <==>
              exists p :: p in ps && p.exchangeId == exchange && p.lastUpdateTime == Some(s.time) && p.price == s.price
  {
    if ps != [] {
      StampsForHas(ps[1..], exchange, s);
      assert ps == [ps[0]] + ps[1..];
    }
  }

  function Cell(m: map<ExchangeId, Stamp>, exchange: ExchangeId): Option<Stamp> {
    if exchange in m then Some(m[exchange]) else None
  }

  /** What a list of stamps makes of a cell: nothing if it is empty, else the last writer. */
  function After(cell: Option<Stamp>, stamps: seq<Stamp>): Option<Stamp> {
    if stamps == [] then cell else Some(Fold(if cell.Some? then cell.value else NEW_STAMP, stamps))
  }

  lemma {:induction false} ApplyPricesCell(m: map<ExchangeId, Stamp>, ps: seq<ExchangePrice>, exchange: ExchangeId)
    requires Timed(ps)
    ensures Cell(ApplyPrices(m, ps), exchange) == After(Cell(m, exchange), StampsFor(ps, exchange))
    decreases |ps|
  {
    if ps != [] {
      var m1 := Update(m, ps[0].exchangeId, StampOf(ps[0]));
      ApplyPricesCell(m1, ps[1..], exchange);
      var rest := StampsFor(ps[1..], exchange);
      if ps[0].exchangeId == exchange {
        AfterTwice(Cell(m, exchange), [StampOf(ps[0])], rest);
        assert Fold(Entry(m, exchange), [StampOf(ps[0])]) == Newer(Entry(m, exchange), StampOf(ps[0]));
      } else {
        assert [] + rest == rest;
      }
    }
  }

  lemma AfterTwice(cell: Option<Stamp>, a: seq<Stamp>, b: seq<Stamp>)
    ensures After(After(cell, a), b) == After(cell, a + b)
  {
    if a == [] {
      assert a + b == b;
    } else if b == [] {
      assert a + b == a;
    } else {
      FoldConcat(if cell.Some? then cell.value else NEW_STAMP, a, b);
    }
  }

  /**
   After any request, and so after any sequence of them, each cell holds the last writer among what
   it held and what was sent to it: `FoldIsFirstLatest` says which one that is.
   */
  lemma {:induction false} LastWriterWins(c: Cache, us: seq<MarketPriceUpdate>, market: uint32, exchange: ExchangeId)
    requires AllTimed(us)
    ensures Cell(Row(ApplyMarkets(c, us), market), exchange)
         == After(Cell(Row(c, market), exchange), Sent(us, market, exchange))
    decreases |us|
  {
    hide ApplyPrices;
    if us != [] {
      var u := us[0];
      var c1 := c[u.marketId := ApplyPrices(Row(c, u.marketId), u.exchangePrices)];
      LastWriterWins(c1, us[1..], market, exchange);
      if u.marketId == market {
        ApplyPricesCell(Row(c, market), u.exchangePrices, exchange);
        AfterTwice(Cell(Row(c, market), exchange), StampsFor(u.exchangePrices, exchange), Sent(us[1..], market, exchange));
      } else {
        assert [] + Sent(us[1..], market, exchange) == Sent(us[1..], market, exchange);
      }
    }
  }

  /** Sending the same request again changes no cell. */
  lemma UpdateTwice(c: Cache, us: seq<MarketPriceUpdate>, market: uint32, exchange: ExchangeId)
    requires AllTimed(us)
    ensures Cell(Row(ApplyMarkets(ApplyMarkets(c, us), us), market), exchange)
         == Cell(Row(ApplyMarkets(c, us), market), exchange)
  {
    hide ApplyMarkets;
    LastWriterWins(c, us, market, exchange);
    LastWriterWins(ApplyMarkets(c, us), us, market, exchange);
    var cell := Cell(Row(c, market), exchange);
    FoldIdempotent(if cell.Some? then cell.value else NEW_STAMP, Sent(us, market, exchange));
  }

  /** Two requests that carry the same stamps, no two different ones with the same time, have the same effect. */
  lemma RequestOrderIrrelevant(c: Cache, us: seq<MarketPriceUpdate>, vs: seq<MarketPriceUpdate>, market: uint32, exchange: ExchangeId)
    requires AllTimed(us) && AllTimed(vs)
    requires multiset(Sent(us, market, exchange)) == multiset(Sent(vs, market, exchange))
    requires forall a, b | a in Sent(us, market, exchange) && b in Sent(us, market, exchange) && a.time == b.time :: a == b
    ensures Cell(Row(ApplyMarkets(c, us), market), exchange) == Cell(Row(ApplyMarkets(c, vs), market), exchange)
  {
    hide ApplyMarkets, Sent;
    LastWriterWins(c, us, market, exchange);
    LastWriterWins(c, vs, market, exchange);
    var x, y := Sent(us, market, exchange), Sent(vs, market, exchange);
    assert |multiset(x)| == |x| && |multiset(y)| == |y|;
    var cell := Cell(Row(c, market), exchange);
    FoldOrderIndependent(if cell.Some? then cell.value else NEW_STAMP, x, y);
  }

  // ---------------------------------------------------------------- specification of reads

  /** A market price: the median of its fresh prices, of how many, and the time of the latest of them. */
  datatype Snapshot = Snapshot(marketId: uint32, price: int, numSources: nat, latestUpdate: Time)

  ghost predicate IsLatest<K>(m: map<K, Stamp>, cutoff: Time, latest: Time) {
    && latest >= ZERO_TIME
    && (forall k | k in Fresh(m, cutoff) :: m[k].time <= latest)
    && (latest == ZERO_TIME || exists k :: k in Fresh(m, cutoff) && m[k].time == latest)
  }

  /** What `GetValidPriceAggregates` says about a market of the cache. */
  ghost predicate IsAggregate(c: Cache, cutoff: Time, s: Snapshot) {
    && s.marketId in c
    && Fresh(c[s.marketId], cutoff) != {}
    && IndexPrice(c[s.marketId], cutoff) == Some(s.price)
    && s.numSources == |Fresh(c[s.marketId], cutoff)|
    && IsLatest(c[s.marketId], cutoff, s.latestUpdate)
  }

  /**
   An aggregate in terms of the entries themselves: `order` visits those of the cutoff time or later, and `t` is any
   ascending arrangement of their prices.
   */
  lemma AggregateIs(c: Cache, cutoff: Time, s: Snapshot, order: seq<ExchangeId>, t: seq<int>)
    requires IsAggregate(c, cutoff, s) && Visits(order, set e | e in c[s.marketId] && c[s.marketId][e].time >= cutoff)
    requires (forall e | e in order :: e in c[s.marketId]) && multiset(t) == multiset(PricesOf(c[s.marketId], order))
    requires forall i, j :: 0 <= i < j < |t| ==> t[i] <= t[j]
    ensures s.numSources == |t| > 0
    ensures |t| % 2 == 1 ==> s.price == t[|t| / 2]
    ensures |t| % 2 == 0 ==>
              var sum := t[|t| / 2 - 1] + t[|t| / 2];
              (sum >= 0 ==> 0 <= 2 * s.price - sum <= 1) && (sum < 0 ==> -1 <= 2 * s.price - sum <= 0)
    ensures forall e | e in c[s.marketId] && c[s.marketId][e].time >= cutoff :: c[s.marketId][e].time <= s.latestUpdate
    ensures s.latestUpdate > ZERO_TIME ==>
              exists e :: e in c[s.marketId] && c[s.marketId][e].time >= cutoff && c[s.marketId][e].time == s.latestUpdate
  {
    hide IndexPrice;
    FreshIs(c[s.marketId], cutoff);
    IndexPriceIs(c[s.marketId], cutoff, order, t);
  }

  function MarketIdsOf(snapshots: seq<Snapshot>): (ids: seq<uint32>)
    ensures |ids| == |snapshots|
  {
    seq(|snapshots|, i requires 0 <= i < |snapshots| => snapshots[i].marketId)
  }

  /** The markets of a list that have a fresh price, in order. */
  ghost function WithFreshPrice(c: Cache, cutoff: Time, ids: seq<uint32>): seq<uint32> {
    if ids == [] then []
    else var last := ids[|ids| - 1];
         WithFreshPrice(c, cutoff, ids[..|ids| - 1]) + if last in c && Fresh(c[last], cutoff) != {} then [last] else []
  }

  /** The market has a price of the cutoff time or later. */
  ghost predicate HasPriceSince(c: Cache, cutoff: Time, id: uint32) {
    id in c && exists e :: e in c[id] && c[id][e].time >= cutoff
  }

  /** These are the asked markets with such a price, at their positions in the list. */
  lemma {:induction false} WithFreshPriceInOrder(c: Cache, cutoff: Time, ids: seq<uint32>) returns (at: seq<nat>)
    ensures PickedAt(at, WithFreshPrice(c, cutoff, ids), ids)
    ensures forall i :: i in at <==> 0 <= i < |ids| && HasPriceSince(c, cutoff, ids[i])
    decreases |ids|
  {
    hide PickedAt, HasPriceSince, Fresh;
    at := [];
    if ids != [] {
      var n := |ids| - 1;
      var rest := WithFreshPriceInOrder(c, cutoff, ids[..n]);
      var picked := ids[n] in c && Fresh(c[ids[n]], cutoff) != {};
      SinceIsFresh(c, cutoff, ids[n]);
      PickLast(rest, WithFreshPrice(c, cutoff, ids[..n]), ids, picked);
      at := rest + if picked then [n] else [];
    } else {
      NothingPicked<uint32>();
    }
  }

  lemma SinceIsFresh(c: Cache, cutoff: Time, id: uint32)
    ensures HasPriceSince(c, cutoff, id) <==> id in c && Fresh(c[id], cutoff) != {}
  {
    if id in c { FreshIs(c[id], cutoff); }
  }

  ghost predicate HasEnough(c: Cache, cutoff: Time, p: MarketParam) {
    && p.id in c
    && |Fresh(c[p.id], cutoff)| >= p.minExchanges
    && |Fresh(c[p.id], cutoff)| > 0
  }

  // ---------------------------------------------------------------- validation

  datatype UpdateError = NoUpdates | InvalidPrice | TimeNotSet

  function PriceError(p: ExchangePrice): Option<UpdateError> {
    if p.price == 0 then Some(InvalidPrice) else if p.lastUpdateTime.None? then Some(TimeNotSet) else None
  }

  function FirstPriceError(ps: seq<ExchangePrice>): Option<UpdateError> {
    if ps == [] then None
    else match PriceError(ps[0]) case Some(e) => Some(e) case None => FirstPriceError(ps[1..])
  }

  function FirstUpdateError(us: seq<MarketPriceUpdate>): Option<UpdateError> {
    if us == [] then None
    else match FirstPriceError(us[0].exchangePrices) case Some(e) => Some(e) case None => FirstUpdateError(us[1..])
  }

  function Validation(req: Request): Option<UpdateError> {
    if req.marketPriceUpdates == [] then Some(NoUpdates) else FirstUpdateError(req.marketPriceUpdates)
  }

  predicate Priced(ps: seq<ExchangePrice>) {
    forall p | p in ps :: p.price != 0 && p.lastUpdateTime.Some?
  }

  lemma {:induction false} PricesWithoutError(ps: seq<ExchangePrice>)
    ensures FirstPriceError(ps).None? <==> Priced(ps)
  {
    if ps != [] {
      PricesWithoutError(ps[1..]);
      assert ps == [ps[0]] + ps[1..];
    }
  }

  lemma {:induction false} UpdatesWithoutError(us: seq<MarketPriceUpdate>)
    ensures FirstUpdateError(us).None? <==> forall u | u in us :: Priced(u.exchangePrices)
  {
    if us != [] {
      UpdatesWithoutError(us[1..]);
      PricesWithoutError(us[0].exchangePrices);
      assert us == [us[0]] + us[1..];
    }
  }

  /** A request is valid exactly when it carries updates, and every price in it is set and has a time. */
  /** A price is set and has a time. */
  predicate Sound(p: ExchangePrice) {
    p.price != 0 && p.lastUpdateTime.Some?
  }

  lemma {:induction false} FirstPriceErrorIs(ps: seq<ExchangePrice>, j: nat)
    requires j < |ps| && !Sound(ps[j]) && forall b :: 0 <= b < j ==> Sound(ps[b])
    ensures FirstPriceError(ps) == Some(if ps[j].price == 0 then InvalidPrice else TimeNotSet)
  {
    if j > 0 { FirstPriceErrorIs(ps[1..], j - 1); }
  }

  lemma {:induction false} FirstUpdateErrorIs(us: seq<MarketPriceUpdate>, i: nat, j: nat)
    requires i < |us| && (forall a :: 0 <= a < i ==> FirstPriceError(us[a].exchangePrices).None?)
    requires j < |us[i].exchangePrices| && !Sound(us[i].exchangePrices[j])
    requires forall b :: 0 <= b < j ==> Sound(us[i].exchangePrices[b])
    ensures FirstUpdateError(us) == Some(if us[i].exchangePrices[j].price == 0 then InvalidPrice else TimeNotSet)
    decreases |us|
  {
    if i > 0 {
      FirstUpdateErrorIs(us[1..], i - 1, j);
    } else {
      FirstPriceErrorIs(us[0].exchangePrices, j);
    }
  }

  /** The error of a request is that of its first unsound price, a missing price before a missing time. */
  lemma FirstErrorIs(req: Request, i: nat, j: nat)
    requires var us := req.marketPriceUpdates;
             && i < |us| && j < |us[i].exchangePrices| && !Sound(us[i].exchangePrices[j])
             && (forall b :: 0 <= b < j ==> Sound(us[i].exchangePrices[b]))
             && forall a, b :: 0 <= a < i && 0 <= b < |us[a].exchangePrices| ==> Sound(us[a].exchangePrices[b])
    ensures Validation(req) == Some(if req.marketPriceUpdates[i].exchangePrices[j].price == 0 then InvalidPrice else TimeNotSet)
  {
    var us := req.marketPriceUpdates;
    forall a | 0 <= a < i ensures FirstPriceError(us[a].exchangePrices).None? {
      PricesWithoutError(us[a].exchangePrices);
    }
    FirstUpdateErrorIs(us, i, j);
  }

  lemma ValidRequests(req: Request)
    ensures Validation(req).None? <==>
              req.marketPriceUpdates != [] && forall u | u in req.marketPriceUpdates :: Priced(u.exchangePrices)
    ensures Validation(req).None? ==> AllTimed(req.marketPriceUpdates)
  {
    UpdatesWithoutError(req.marketPriceUpdates);
  }

  // ---------------------------------------------------------------- the code

  method ValidateMarketPriceUpdate(ps: seq<ExchangePrice>) returns (err: Option<UpdateError>)
    ensures err == FirstPriceError(ps)
  {
    for i := 0 to |ps|
      invariant FirstPriceError(ps) == FirstPriceError(ps[i..])
    {
      if ps[i].price == 0 { return Some(InvalidPrice); }
      if ps[i].lastUpdateTime.None? { return Some(TimeNotSet); }
      assert ps[i..][1..] == ps[i + 1..];
    }
    return None;
  }

  method ValidateRequest(req: Request) returns (err: Option<UpdateError>)
    ensures err == Validation(req)
  {
    var updates := req.marketPriceUpdates;
    if |updates| == 0 { return Some(NoUpdates); }
    for i := 0 to |updates|
      invariant FirstUpdateError(updates) == FirstUpdateError(updates[i..])
    {
      err := ValidateMarketPriceUpdate(updates[i].exchangePrices);
      if err.Some? { return; }
      assert updates[i..][1..] == updates[i + 1..];
    }
    return None;
  }

  method UpdateExchangePrices(m0: map<ExchangeId, Stamp>, updates: seq<ExchangePrice>) returns (m: map<ExchangeId, Stamp>)
    requires Timed(updates)
    ensures m == ApplyPrices(m0, updates)
  {
    hide Update;
    m := m0;
    for i := 0 to |updates|
      invariant ApplyPrices(m0, updates) == ApplyPrices(m, updates[i..])
    {
      m := Update(m, updates[i].exchangeId, StampOf(updates[i]));
      assert updates[i..][1..] == updates[i + 1..];
    }
  }

  /** `latest` is the time of the latest of the fresh prices visited so far, or the zero time. */
  ghost predicate LatestSoFar<K>(m: map<K, Stamp>, cutoff: Time, left: set<K>, latest: Time) {
    && latest >= ZERO_TIME
    && (forall k | k in Fresh(m, cutoff) - left :: m[k].time <= latest)
    && (latest == ZERO_TIME || exists k :: k in Fresh(m, cutoff) && m[k].time == latest)
  }

  lemma LatestStep<K>(m: map<K, Stamp>, cutoff: Time, left: set<K>, latest: Time, k: K)
    requires LatestSoFar(m, cutoff, left, latest) && k in left && k in m
    ensures IsFresh(m[k], cutoff) ==>
              LatestSoFar(m, cutoff, left - {k}, if m[k].time > latest then m[k].time else latest)
    ensures !IsFresh(m[k], cutoff) ==> LatestSoFar(m, cutoff, left - {k}, latest)
  {
    if IsFresh(m[k], cutoff) { assert k in Fresh(m, cutoff); }
  }

  /** `getValidPricesAndLatestUpdate`: the map is visited in an order of its own choosing. */
  method GetValidPricesAndLatestUpdate(m: map<ExchangeId, Stamp>, cutoffTime: Time)
    returns (prices: seq<uint64>, latestUpdate: Time)
    ensures exists order: seq<ExchangeId> ::
              Visits(order, Fresh(m, cutoffTime)) && (forall k | k in order :: k in m) && prices == PricesOf(m, order)
    ensures MedianOf(prices) == IndexPrice(m, cutoffTime)
    ensures |prices| == |Fresh(m, cutoffTime)|
    ensures IsLatest(m, cutoffTime, latestUpdate)
  {
    hide IndexPrice, MedianOf, Visited, Fresh, LatestSoFar;
    prices, latestUpdate := [], ZERO_TIME;
    ghost var order := [];
    var left := m.Keys;
    VisitStarts(m, cutoffTime, left);
    LatestStarts(m, cutoffTime);
    while left != {}
      invariant left <= m.Keys
      invariant Visited(m, cutoffTime, left, order, prices)
      invariant LatestSoFar(m, cutoffTime, left, latestUpdate)
    {
      var k :| k in left;
      VisitStep(m, cutoffTime, left, order, prices, k);
      LatestStep(m, cutoffTime, left, latestUpdate, k);
      left := left - {k};
      if !(m[k].time < cutoffTime) {
        prices := prices + [m[k].price];
        order := order + [k];
        if m[k].time > latestUpdate { latestUpdate := m[k].time; }
      }
    }
    VisitEnds(m, cutoffTime, order, prices);
    LatestEnds(m, cutoffTime, latestUpdate);
  }

  lemma LatestStarts<K>(m: map<K, Stamp>, cutoff: Time)
    ensures LatestSoFar(m, cutoff, m.Keys, ZERO_TIME)
  {
  }

  lemma LatestEnds<K>(m: map<K, Stamp>, cutoff: Time, latest: Time)
    requires LatestSoFar(m, cutoff, {}, latest)
    ensures IsLatest(m, cutoff, latest)
  {
    assert Fresh(m, cutoff) - {} == Fresh(m, cutoff);
  }

  class MarketToExchangePrices {
    var marketToExchangePrices: Cache
    const maxPriceAge: Time

    constructor (maxPriceAge: Time)
      ensures marketToExchangePrices == map[] && this.maxPriceAge == maxPriceAge
    {
      marketToExchangePrices := map[];
      this.maxPriceAge := maxPriceAge;
    }

    method UpdatePrices(updates: seq<MarketPriceUpdate>)
      requires AllTimed(updates)
      modifies this
      ensures marketToExchangePrices == ApplyMarkets(old(marketToExchangePrices), updates)
    {
      hide ApplyPrices, Row;
      ghost var was := marketToExchangePrices;
      for i := 0 to |updates|
        invariant ApplyMarkets(was, updates) == ApplyMarkets(marketToExchangePrices, updates[i..])
      {
        var marketId := updates[i].marketId;
        var exchangeToPrices := UpdateExchangePrices(Row(marketToExchangePrices, marketId), updates[i].exchangePrices);
        marketToExchangePrices := marketToExchangePrices[marketId := exchangeToPrices];
        assert updates[i..][1..] == updates[i + 1..];
      }
    }

    /** One aggregate for every market asked for that has a fresh price, in the order asked. */
    method GetValidPriceAggregates(marketIds: seq<uint32>, readTime: Time) returns (snapshots: seq<Snapshot>)
      ensures forall s | s in snapshots :: IsAggregate(marketToExchangePrices, readTime - maxPriceAge, s)
      ensures MarketIdsOf(snapshots) == WithFreshPrice(marketToExchangePrices, readTime - maxPriceAge, marketIds)
    {
      hide IndexPrice, IsLatest, MedianOf, Fresh;
      var cutoffTime := readTime - maxPriceAge;
      snapshots := [];
      for i := 0 to |marketIds|
        invariant forall s | s in snapshots :: IsAggregate(marketToExchangePrices, cutoffTime, s)
        invariant MarketIdsOf(snapshots) == WithFreshPrice(marketToExchangePrices, cutoffTime, marketIds[..i])
      {
        var marketId := marketIds[i];
        assert marketIds[..i + 1][..i] == marketIds[..i];
        if marketId in marketToExchangePrices {
          var validPrices, latestUpdate := GetValidPricesAndLatestUpdate(marketToExchangePrices[marketId], cutoffTime);
          if |validPrices| != 0 {
            var median := Median.Median(UINT64, validPrices);
            var s := Snapshot(marketId, median.value, |validPrices|, latestUpdate);
            assert MarketIdsOf(snapshots + [s]) == MarketIdsOf(snapshots) + [marketId];
            snapshots := snapshots + [s];
          }
        }
      }
      assert marketIds[..|marketIds|] == marketIds;
    }

    /** A market has a price exactly when some parameter asks for it and enough exchanges have a fresh price. */
    method GetValidMedianPrices(marketParams: seq<MarketParam>, readTime: Time) returns (medians: map<uint32, int>)
      ensures forall id :: id in medians <==>
                exists p :: p in marketParams && p.id == id && HasEnough(marketToExchangePrices, readTime - maxPriceAge, p)
      ensures forall id :: id in medians <==>
                exists p :: p in marketParams && p.id == id && id in marketToExchangePrices
                  && |Fresh(marketToExchangePrices[id], readTime - maxPriceAge)| >= p.minExchanges
                  && Fresh(marketToExchangePrices[id], readTime - maxPriceAge) != {}
      ensures forall id | id in medians ::
                id in marketToExchangePrices
                && IndexPrice(marketToExchangePrices[id], readTime - maxPriceAge) == Some(medians[id])
    {
      hide IndexPrice, IsLatest, MedianOf, Fresh;
      var cutoffTime := readTime - maxPriceAge;
      medians := map[];
      for i := 0 to |marketParams|
        invariant forall id | id in medians ::
                    id in marketToExchangePrices && IndexPrice(marketToExchangePrices[id], cutoffTime) == Some(medians[id])
        invariant forall id | id in medians ::
                    exists p :: p in marketParams[..i] && p.id == id && HasEnough(marketToExchangePrices, cutoffTime, p)
        invariant forall p | p in marketParams[..i] && HasEnough(marketToExchangePrices, cutoffTime, p) :: p.id in medians
      {
        var marketParam := marketParams[i];
        assert marketParams[..i + 1] == marketParams[..i] + [marketParam];
        assert marketParam in marketParams[..i + 1];
        ghost var before := medians;
        if marketParam.id in marketToExchangePrices {
          var validPrices, _ := GetValidPricesAndLatestUpdate(marketToExchangePrices[marketParam.id], cutoffTime);
          if |validPrices| >= marketParam.minExchanges {
            var median := Median.Median(UINT64, validPrices);
            if median.Some? {
              medians := medians[marketParam.id := median.value];
            }
          }
        }
        assert forall id :: id in before ==> id in medians;
      }
      assert marketParams[..|marketParams|] == marketParams;
    }

    /** The request handler: an invalid request is refused as a whole. */
    method UpdateMarketPrices(req: Request) returns (err: Option<UpdateError>)
      modifies this
      ensures err == Validation(req)
      ensures err.None? ==>
                AllTimed(req.marketPriceUpdates)
                && marketToExchangePrices == ApplyMarkets(old(marketToExchangePrices), req.marketPriceUpdates)
      ensures err.Some? ==> marketToExchangePrices == old(marketToExchangePrices)
    {
      hide ApplyMarkets;
      err := ValidateRequest(req);
      if err.Some? { return; }
      ValidRequests(req);
      UpdatePrices(req.marketPriceUpdates);
    }
  }
}
