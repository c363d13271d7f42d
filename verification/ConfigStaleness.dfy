/**
 What the encoders know after the registry's updates. They are sent market configurations only when the
 configuration of their exchange changes, so a change of what markets have in common may not reach them.
 */
module ConfigStaleness {
  import opened ConfigRegistry
  import opened MarketParams
  import opened MarketTransform
  import opened Options

  // ---------------------------------------------------------------- which changes are silent

  /** Both lists ask for the same configurations on every exchange. */
  ghost predicate AskTheSame(json: Json, ids: set<ExchangeId>, ps: seq<MarketParam>, qs: seq<MarketParam>) {
    forall e, m, c | e in ids :: Asks(json, ids, NameToId(ps), ps, e, m, c) == Asks(json, ids, NameToId(qs), qs, e, m, c)
  }

  /** Two lists of parameters give the same exchange configurations exactly if they ask for the same. */
  lemma SilentExactly(json: Json, ids: set<ExchangeId>, ps: seq<MarketParam>, qs: seq<MarketParam>, t: Transformed, u: Transformed)
    requires Describes(json, ids, NameToId(ps), ps, t) && Describes(json, ids, NameToId(qs), qs, u)
    ensures t.exchanges == u.exchanges <==> AskTheSame(json, ids, ps, qs)
  {
    hide Describes, Asks, NameToId;
    TransformIds(json, ids, NameToId(ps), ps, t);
    TransformIds(json, ids, NameToId(qs), qs, u);
    forall e, m, c | e in ids
      ensures Has(t.exchanges[e], m, c) == Asks(json, ids, NameToId(ps), ps, e, m, c)
      ensures Has(u.exchanges[e], m, c) == Asks(json, ids, NameToId(qs), qs, e, m, c)
    {
      ExchangeHas(json, ids, NameToId(ps), ps, t, e, m, c);
      ExchangeHas(json, ids, NameToId(qs), qs, u, e, m, c);
    }
    if AskTheSame(json, ids, ps, qs) {
      forall e | e in ids ensures t.exchanges[e] == u.exchanges[e] {
        SameEntries(t.exchanges[e], u.exchanges[e]);
      }
    }
  }

  /** They differ in nothing but exponents, minimum numbers of exchanges, price changes and query data, as long as those stay valid. */
  predicate SameListing(json: Json, p: MarketParam, q: MarketParam) {
    && p.id == q.id && p.pair == q.pair && p.exchangeConfigJson == q.exchangeConfigJson
    && ValidParam(json, p) == ValidParam(json, q)
  }

  ghost predicate SameListings(json: Json, ps: seq<MarketParam>, qs: seq<MarketParam>) {
    |ps| == |qs| && forall i :: 0 <= i < |ps| ==> SameListing(json, ps[i], qs[i])
  }

  /** No such change is sent to any subscriber. */
  lemma CommonChangeIsSilent(json: Json, ids: set<ExchangeId>, ps: seq<MarketParam>, qs: seq<MarketParam>, t: Transformed, u: Transformed)
    requires SameListings(json, ps, qs)
    requires Describes(json, ids, NameToId(ps), ps, t) && Describes(json, ids, NameToId(qs), qs, u)
    ensures t.exchanges == u.exchanges
  {
    hide Describes, NameToId, Asks;
    forall e, m, c | e in ids
      ensures Asks(json, ids, NameToId(ps), ps, e, m, c) == Asks(json, ids, NameToId(qs), qs, e, m, c)
    {
      ListingAsks(json, ids, ps, qs, e, m, c);
      ListingAsks(json, ids, qs, ps, e, m, c);
    }
    SilentExactly(json, ids, ps, qs, t, u);
  }

  lemma {:induction false} SameNames(json: Json, ps: seq<MarketParam>, qs: seq<MarketParam>)
    requires SameListings(json, ps, qs)
    ensures NameToId(ps) == NameToId(qs)
  {
    if ps != [] { SameNames(json, ps[..|ps| - 1], qs[..|qs| - 1]); }
  }

  lemma ListingAsked(json: Json, ids: set<ExchangeId>, names: map<Text, MarketId>, p: MarketParam, q: MarketParam, e: ExchangeId)
    requires SameListing(json, p, q)
    ensures Judge(json, ids, names, q) == Judge(json, ids, names, p)
    ensures Asked(json, ids, names, q, e) == Asked(json, ids, names, p, e)
  {
  }

  lemma ListingAsks(json: Json, ids: set<ExchangeId>, ps: seq<MarketParam>, qs: seq<MarketParam>, e: ExchangeId, m: MarketId, c: MarketConfig)
    requires SameListings(json, ps, qs)
    ensures Asks(json, ids, NameToId(ps), ps, e, m, c) ==> Asks(json, ids, NameToId(qs), qs, e, m, c)
  {
    hide Asked, NameToId;
    SameNames(json, ps, qs);
    if Asks(json, ids, NameToId(ps), ps, e, m, c) {
      var p :| p in ps && p.id == m && Asked(json, ids, NameToId(ps), p, e) == Some(c);
      var i :| 0 <= i < |ps| && ps[i] == p;
      ListingAsked(json, ids, NameToId(ps), ps[i], qs[i], e);
      assert qs[i] in qs;
    }
  }

  // ---------------------------------------------------------------- what the encoders know, over runs

  /** The configuration of an exchange after the updates of a run, which starts without markets. */
  function ConfigAfter(ts: seq<Transformed>, e: ExchangeId): ExchangeConfig
    requires forall t | t in ts :: e in t.exchanges
  {
    if ts == [] then ExchangeConfig(e, map[]) else ts[|ts| - 1].exchanges[e]
  }

  /** The markets of the last update that changed the configuration of an exchange. */
  function MarketsSent(ts: seq<Transformed>, e: ExchangeId): map<MarketId, MarketCommon>
    requires forall t | t in ts :: e in t.exchanges
  {
    if ts == [] then map[]
    else
      var before := ts[..|ts| - 1];
      if ConfigAfter(ts, e) != ConfigAfter(before, e) then ts[|ts| - 1].markets else MarketsSent(before, e)
  }

  /** What the subscribers hold before and after each of the updates, none of which failed. */
  ghost predicate IsRun(helds: seq<map<ExchangeId, Holding>>, ts: seq<Transformed>) {
    && |helds| == |ts| + 1
    && (forall e | e in helds[0] :: helds[0][e].encoder == ExchangeConfig(e, map[]) && helds[0][e].known == map[])
    && forall i :: 0 <= i < |ts| ==> Updates(helds[i], helds[i + 1], ts[i])
  }

  /** What an update that does not fail brings about. */
  ghost predicate Updates(was: map<ExchangeId, Holding>, held: map<ExchangeId, Holding>, t: Transformed) {
    InSync(held, t.exchanges) && exists before, sent :: PushedChanges(was, held, before, sent, t)
  }

  /** After any run an encoder knows the markets it refers to as they were when its configuration last changed. */
  lemma {:induction false} EncoderKnows(helds: seq<map<ExchangeId, Holding>>, ts: seq<Transformed>, e: ExchangeId)
    requires IsRun(helds, ts) && e in helds[0]
    ensures e in helds[|ts|] && forall t | t in ts :: e in t.exchanges
    ensures helds[|ts|][e].encoder == ConfigAfter(ts, e)
    ensures helds[|ts|][e].known == Restrict(MarketsSent(ts, e), MarketsOn(ConfigAfter(ts, e)))
    decreases |ts|
  {
    hide Received, EncoderFirst;
    if ts != [] {
      var n := |ts| - 1;
      var was, held, t := helds[n], helds[n + 1], ts[n];
      assert IsRun(helds[..n + 1], ts[..n]);
      EncoderKnows(helds[..n + 1], ts[..n], e);
      assert ts == ts[..n] + [t];
      assert Updates(was, held, t);
      var before, sent :| PushedChanges(was, held, before, sent, t);
      assert held[e].encoder == t.exchanges[e];
    }
  }

  /**
   It knows the registry's markets exactly if those it refers to are as they were then. After an update that
   changes its configuration that is always so.
   */
  lemma FreshExactly(helds: seq<map<ExchangeId, Holding>>, ts: seq<Transformed>, e: ExchangeId)
    requires IsRun(helds, ts) && e in helds[0] && ts != []
    ensures e in helds[|ts|] && forall t | t in ts :: e in t.exchanges
    ensures var markets, needed := ts[|ts| - 1].markets, MarketsOn(ConfigAfter(ts, e));
            && (helds[|ts|][e].known == Restrict(markets, needed)
                <==> forall m | m in needed :: Common(MarketsSent(ts, e), m) == Common(markets, m))
            && (ConfigAfter(ts, e) != ConfigAfter(ts[..|ts| - 1], e) ==> helds[|ts|][e].known == Restrict(markets, needed))
  {
    hide IsRun, MarketsOn;
    EncoderKnows(helds, ts, e);
    var markets, sent, needed := ts[|ts| - 1].markets, MarketsSent(ts, e), MarketsOn(ConfigAfter(ts, e));
    SameRestriction(sent, markets, needed);
  }

  function Common(markets: map<MarketId, MarketCommon>, m: MarketId): Option<MarketCommon> {
    if m in markets then Some(markets[m]) else None
  }

  lemma SameRestriction(a: map<MarketId, MarketCommon>, b: map<MarketId, MarketCommon>, ids: set<MarketId>)
    ensures Restrict(a, ids) == Restrict(b, ids) <==> forall m | m in ids :: Common(a, m) == Common(b, m)
  {
    forall m | m in ids
      ensures Common(Restrict(a, ids), m) == Common(a, m) && Common(Restrict(b, ids), m) == Common(b, m)
    {
    }
    if forall m | m in ids :: Common(a, m) == Common(b, m) {
      forall m ensures m in Restrict(a, ids) <==> m in Restrict(b, ids) {
        if m in ids { assert Common(a, m) == Common(b, m); }
      }
      forall m | m in Restrict(a, ids) ensures Restrict(a, ids)[m] == Restrict(b, ids)[m] {
        assert Common(a, m) == Common(b, m);
      }
    }
  }

  /**
   Stale encoders: the markets are configured, and then changed in their common parts only. On every exchange
   that lists a market its encoder goes on with the old exponent and minimum number of exchanges.
   */
  lemma CommonChangeIsMissed(json: Json, helds: seq<map<ExchangeId, Holding>>, ps: seq<MarketParam>, qs: seq<MarketParam>,
                             t: Transformed, u: Transformed, i: nat, e: ExchangeId)
    requires IsRun(helds, [t, u]) && SameListings(json, ps, qs) && i < |ps|
    requires Describes(json, helds[0].Keys, NameToId(ps), ps, t) && Describes(json, helds[0].Keys, NameToId(qs), qs, u)
    requires e in helds[0] && Asked(json, helds[0].Keys, NameToId(ps), ps[i], e).Some?
    ensures e in helds[2] && ps[i].id in helds[2][e].known && ps[i].id in u.markets
    ensures helds[2][e].known[ps[i].id] == MarketCommon(ps[i].id, ps[i].pair, ps[i].exponent, ps[i].minExchanges)
    ensures u.markets[ps[i].id] == MarketCommon(qs[i].id, qs[i].pair, qs[i].exponent, qs[i].minExchanges)
    ensures ps[i].exponent != qs[i].exponent || ps[i].minExchanges != qs[i].minExchanges ==>
              e in u.exchanges && helds[2][e].known != Restrict(u.markets, MarketsOn(u.exchanges[e]))
  {
    hide Updates, Describes, NameToId, MarketsOn, Asked, Judge;
    var ids := helds[0].Keys;
    EncoderKnows(helds, [t, u], e);
    CommonChangeIsSilent(json, ids, ps, qs, t, u);
    Sent(json, ids, ps, t, i, e);
    SameNames(json, ps, qs);
    ListingAsked(json, ids, NameToId(ps), ps[i], qs[i], e);
    Sent(json, ids, qs, u, i, e);
    assert [t, u][..1] == [t] && [t][..0] == [];
    assert t in [t, u] && u in [t, u];
    assert MarketsSent([t], e) == t.markets;
    assert MarketsSent([t, u], e) == t.markets;
    assert Restrict(u.markets, MarketsOn(u.exchanges[e]))[ps[i].id] == CommonOf(qs[i]);
  }

  lemma Sent(json: Json, ids: set<ExchangeId>, ps: seq<MarketParam>, t: Transformed, i: nat, e: ExchangeId)
    requires Describes(json, ids, NameToId(ps), ps, t) && i < |ps| && e in ids
    requires Asked(json, ids, NameToId(ps), ps[i], e).Some?
    ensures e in t.exchanges && ps[i].id in t.exchanges[e].markets && ps[i].id in MarketsOn(t.exchanges[e])
    ensures ps[i].id in t.markets && t.markets[ps[i].id] == CommonOf(ps[i])
  {
    hide Judge, NameToId, Wanted, CommonOf;
    assert ps[i] in ps;
    assert Judge(json, ids, NameToId(ps), ps[i]).None?;
    MarketsOnHas(t.exchanges[e]);
  }
}
