/** The transposition of the daemon's prices, listed by exchange, into a request to the server, by market. */
module PriceFlush {
  import opened ClientPriceCache
  import opened MarketParams
  import opened Options
  import opened PricefeedMessages
  import opened PriceStamps
  import opened ServerPriceCache

  // ---------------------------------------------------------------- transposition

  /** The stamps that a list holds for a market, in order. */
  function Listed(ps: seq<MarketPrice>, market: MarketId): seq<Stamp> {
    if ps == [] then []
    else (if ps[0].marketId == market then [ps[0].stamp] else []) + Listed(ps[1..], market)
  }

  function ListedFor(all: map<ExchangeId, seq<MarketPrice>>, market: MarketId, exchange: ExchangeId): seq<Stamp> {
    if exchange in all then Listed(all[exchange], market) else []
  }

  /** `marketPriceUpdateMap`: the exchange prices collected for each market. */
  type Table = map<MarketId, seq<ExchangePrice>>

  ghost predicate Filled(t: Table) {
    forall m | m in t :: t[m] != [] && Timed(t[m])
  }

  ghost function Collected(t: Table, market: MarketId, exchange: ExchangeId): seq<Stamp>
    requires Filled(t)
  {
    if market in t then StampsFor(t[market], exchange) else []
  }

  lemma Associate(a: seq<Stamp>, b: seq<Stamp>, c: seq<Stamp>)
    ensures (a + b) + c == a + (b + c)
  {
  }

  lemma {:induction false} StampsForAppend(ps: seq<ExchangePrice>, p: ExchangePrice, exchange: ExchangeId)
    requires Timed(ps) && Timed([p])
    ensures Timed(ps + [p])
    ensures StampsFor(ps + [p], exchange)
         == StampsFor(ps, exchange) + (if p.exchangeId == exchange then [StampOf(p)] else [])
  {
    if ps == [] {
      assert ps + [p] == [p];
    } else {
      assert (ps + [p])[1..] == ps[1..] + [p];
      StampsForAppend(ps[1..], p, exchange);
      Associate(if ps[0].exchangeId == exchange then [StampOf(ps[0])] else [], StampsFor(ps[1..], exchange),
                if p.exchangeId == exchange then [StampOf(p)] else []);
    }
  }

  lemma {:induction false} SentAppend(us: seq<MarketPriceUpdate>, u: MarketPriceUpdate, market: MarketId, exchange: ExchangeId)
    requires AllTimed(us) && Timed(u.exchangePrices)
    ensures AllTimed(us + [u])
    ensures Sent(us + [u], market, exchange)
         == Sent(us, market, exchange) + (if u.marketId == market then StampsFor(u.exchangePrices, exchange) else [])
  {
    hide StampsFor;
    if us == [] {
      assert us + [u] == [u];
    } else {
      assert (us + [u])[1..] == us[1..] + [u];
      SentAppend(us[1..], u, market, exchange);
      Associate(if us[0].marketId == market then StampsFor(us[0].exchangePrices, exchange) else [],
                Sent(us[1..], market, exchange),
                if u.marketId == market then StampsFor(u.exchangePrices, exchange) else []);
    }
  }

  lemma {:induction false} ListedAppend(ps: seq<MarketPrice>, p: MarketPrice, market: MarketId)
    ensures Listed(ps + [p], market) == Listed(ps, market) + (if p.marketId == market then [p.stamp] else [])
  {
    if ps == [] {
      assert ps + [p] == [p];
    } else {
      assert (ps + [p])[1..] == ps[1..] + [p];
      ListedAppend(ps[1..], p, market);
      Associate(if ps[0].marketId == market then [ps[0].stamp] else [], Listed(ps[1..], market),
                if p.marketId == market then [p.stamp] else []);
    }
  }

  lemma ListsRest(ps: seq<MarketPrice>, m: map<MarketId, Stamp>)
    requires Lists(ps, m)
    ensures ps == [] ==> m == map[]
    ensures ps != [] ==> var last := ps[|ps| - 1];
              last.marketId in m && m[last.marketId] == last.stamp && Lists(ps[..|ps| - 1], m - {last.marketId})
  {
    if ps != [] {
      var last := ps[|ps| - 1];
      assert last in ps;
      forall k | k in m - {last.marketId} ensures MarketPrice(k, m[k]) in ps[..|ps| - 1] {
        assert MarketPrice(k, m[k]) in ps;
      }
    } else {
      forall k ensures k !in m {
        if k in m { assert false; }
      }
    }
  }

  /** An enumeration of a map holds exactly the stamp of each entry. */
  lemma {:induction false} ListedOnce(ps: seq<MarketPrice>, m: map<MarketId, Stamp>, market: MarketId)
    requires Lists(ps, m)
    ensures Listed(ps, market) == if market in m then [m[market]] else []
  {
    hide Lists;
    ListsRest(ps, m);
    if ps != [] {
      var last, rest := ps[|ps| - 1], ps[..|ps| - 1];
      assert ps == rest + [last];
      ListedAppend(rest, last, market);
      ListedOnce(rest, m - {last.marketId}, market);
    }
  }

  method AddPrice(t0: Table, exchangeId: ExchangeId, p: MarketPrice) returns (t: Table)
    requires Filled(t0)
    ensures Filled(t)
    ensures forall m, e :: Collected(t, m, e)
                        == Collected(t0, m, e) + (if m == p.marketId && e == exchangeId then [p.stamp] else [])
  {
    var update := if p.marketId in t0 then t0[p.marketId] else [];
    var exchangePrice := ExchangePrice(exchangeId, p.stamp.price, Some(p.stamp.time));
    t := t0[p.marketId := update + [exchangePrice]];
    forall e {
      StampsForAppend(update, exchangePrice, e);
    }
  }

  method AddPrices(t0: Table, exchangeId: ExchangeId, ps: seq<MarketPrice>) returns (t: Table)
    requires Filled(t0)
    ensures Filled(t)
    ensures forall m, e :: Collected(t, m, e)
                        == Collected(t0, m, e) + (if e == exchangeId then Listed(ps, m) else [])
  {
    hide Collected, Filled;
    t := t0;
    for i := 0 to |ps|
      invariant Filled(t)
      invariant forall m, e :: Collected(t, m, e)
                            == Collected(t0, m, e) + (if e == exchangeId then Listed(ps[..i], m) else [])
    {
      t := AddPrice(t, exchangeId, ps[i]);
      assert ps[..i + 1] == ps[..i] + [ps[i]];
      forall m {
        ListedAppend(ps[..i], ps[i], m);
      }
    }
    assert ps[..|ps|] == ps;
  }

  method Collect(all: map<ExchangeId, seq<MarketPrice>>) returns (t: Table)
    ensures Filled(t)
    ensures forall m, e :: Collected(t, m, e) == ListedFor(all, m, e)
  {
    hide Collected, Filled, Listed;
    t := map[];
    var left := all.Keys;
    EmptyTable();
    while left != {}
      invariant left <= all.Keys
      invariant Filled(t)
      invariant forall m, e :: Collected(t, m, e) == if e in left then [] else ListedFor(all, m, e)
    {
      var exchangeId :| exchangeId in left;
      t := AddPrices(t, exchangeId, all[exchangeId]);
      left := left - {exchangeId};
    }
  }

  lemma EmptyTable()
    ensures Filled(map[]) && forall m, e :: Collected(map[], m, e) == []
  {
  }

  ghost predicate DistinctMarkets(us: seq<MarketPriceUpdate>) {
    forall i, j :: 0 <= i < j < |us| ==> us[i].marketId != us[j].marketId
  }

  /**
   The request carries exactly the stamps of the lists, each for its own market and exchange; every
   market occurs once, and only with prices.
   */
  method TransformPriceUpdates(updates: map<ExchangeId, seq<MarketPrice>>) returns (request: Request)
    ensures AllTimed(request.marketPriceUpdates) && DistinctMarkets(request.marketPriceUpdates)
    ensures forall u | u in request.marketPriceUpdates :: u.exchangePrices != []
    ensures forall m, e :: Sent(request.marketPriceUpdates, m, e) == ListedFor(updates, m, e)
  {
    hide ListedFor, InRequest;
    var t := Collect(updates);
    var us: seq<MarketPriceUpdate> := [];
    var left := t.Keys;
    NothingInRequest(t);
    while left != {}
      invariant left <= t.Keys && InRequest(t, left, us)
    {
      var marketId :| marketId in left;
      us := AppendUpdate(t, left, us, marketId);
      left := left - {marketId};
    }
    AllInRequest(t, us);
    return Request(us);
  }

  /** The markets that are not left are in the request, each with its collected prices. */
  ghost predicate InRequest(t: Table, left: set<MarketId>, us: seq<MarketPriceUpdate>) {
    && Filled(t) && AllTimed(us) && DistinctMarkets(us)
    && (forall u | u in us :: u.marketId in t && u.marketId !in left && u.exchangePrices != [])
    && (forall m, e :: Sent(us, m, e) == if m in left then [] else Collected(t, m, e))
  }

  lemma NothingInRequest(t: Table)
    requires Filled(t)
    ensures InRequest(t, t.Keys, [])
  {
  }

  lemma AllInRequest(t: Table, us: seq<MarketPriceUpdate>)
    requires InRequest(t, {}, us)
    ensures AllTimed(us) && DistinctMarkets(us) && forall u | u in us :: u.exchangePrices != []
    ensures forall m, e :: Sent(us, m, e) == Collected(t, m, e)
  {
  }

  method AppendUpdate(t: Table, ghost left: set<MarketId>, us: seq<MarketPriceUpdate>, marketId: MarketId)
    returns (r: seq<MarketPriceUpdate>)
    requires InRequest(t, left, us) && marketId in left && marketId in t
    ensures InRequest(t, left - {marketId}, r)
  {
    hide Sent;
    var u := MarketPriceUpdate(marketId, t[marketId]);
    r := us + [u];
    forall m, e ensures AllTimed(r) && Sent(r, m, e) == if m in left - {marketId} then [] else Collected(t, m, e) {
      SentAppend(us, u, m, e);
      assert Sent(us, m, e) == if m in left then [] else Collected(t, m, e);
    }
  }
}
