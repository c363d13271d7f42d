/** The registry of market configurations, and what it broadcasts to the subscribers of each exchange. */
module ConfigRegistry {
  import opened ExchangeSubscribers
  import opened MarketParams
  import opened MarketRing
  import opened MarketTransform
  import opened Options

  // ---------------------------------------------------------------- update parameters

  /** The configurations of the listed markets, in order. */
  function Commons(ids: seq<MarketId>, markets: map<MarketId, MarketCommon>): seq<MarketCommon>
    requires forall m | m in ids :: m in markets
  {
    seq(|ids|, i requires 0 <= i < |ids| => markets[ids[i]])
  }

  function Restrict(markets: map<MarketId, MarketCommon>, ids: set<MarketId>): map<MarketId, MarketCommon> {
    map m | m in ids && m in markets :: markets[m]
  }

  /** Every market configuration is stored under its id, and valid. */
  ghost predicate ProperMarkets(markets: map<MarketId, MarketCommon>) {
    forall m | m in markets :: markets[m].id == m && ValidCommon(markets[m])
  }

  lemma {:induction false} ByIdOfCommons(ids: seq<MarketId>, markets: map<MarketId, MarketCommon>)
    requires (forall m | m in ids :: m in markets) && ProperMarkets(markets)
    ensures ById(Commons(ids, markets)) == map m | m in ids :: markets[m]
  {
    if ids != [] {
      var last, rest := ids[|ids| - 1], ids[..|ids| - 1];
      assert Commons(ids, markets)[..|ids| - 1] == Commons(rest, markets);
      assert ids == rest + [last];
      ByIdOfCommons(rest, markets);
    }
  }

  /** What a subscriber is sent for a configuration whose references all resolve. */
  ghost predicate IsUpdateFor(update: seq<MarketCommon>, config: ExchangeConfig, markets: map<MarketId, MarketCommon>) {
    && MarketsOn(config) <= markets.Keys
    && exists ids :: IsListing(ids, MarketsOn(config)) && (forall m | m in ids :: m in markets) && update == Commons(ids, markets)
  }

  /** No subscriber rejects it, and it makes known exactly the markets that the exchange refers to. */
  lemma UpdateIsValid(update: seq<MarketCommon>, config: ExchangeConfig, markets: map<MarketId, MarketCommon>)
    requires IsUpdateFor(update, config, markets) && ProperMarkets(markets)
    ensures ValidUpdate(config, update)
    ensures ById(update) == Restrict(markets, MarketsOn(config))
  {
    hide MarketsOn, ById, Commons;
    var ids :| IsListing(ids, MarketsOn(config)) && (forall m | m in ids :: m in markets) && update == Commons(ids, markets);
    ListingDistinct(ids, MarketsOn(config));
    ByIdOfCommons(ids, markets);
    assert ById(update) == Restrict(markets, MarketsOn(config));
    MarketsOnHas(config);
  }

  method CollectMarkets(config: ExchangeConfig) returns (needed: set<MarketId>)
    ensures needed == MarketsOn(config)
  {
    needed := {};
    var left := config.markets.Keys;
    while left != {}
      invariant left <= config.markets.Keys
      invariant needed == MarketsOn(config.(markets := config.markets - left))
    {
      var m :| m in left;
      needed := NeededStep(config, left, needed, m);
      left := left - {m};
    }
    assert config.markets - {} == config.markets;
  }

  method NeededStep(config: ExchangeConfig, ghost left: set<MarketId>, needed: set<MarketId>, m: MarketId)
    returns (next: set<MarketId>)
    requires m in left && left <= config.markets.Keys && needed == MarketsOn(config.(markets := config.markets - left))
    ensures next == MarketsOn(config.(markets := config.markets - (left - {m})))
  {
    var adjust := config.markets[m].adjustByMarket;
    next := needed + {m} + if adjust.Some? then {adjust.value} else {};
    ghost var was, now := config.markets - left, config.markets - (left - {m});
    assert now.Keys == was.Keys + {m} && now == was[m := config.markets[m]];
    forall x ensures x in next <==> x in MarketsOn(config.(markets := now)) {
      if x in MarketsOn(config.(markets := now)) && x !in now {
        var y :| y in now && now[y].adjustByMarket == Some(x);
        if y != m { assert y in was; }
      }
      if adjust == Some(x) { assert m in now; }
      if x in needed && x !in was {
        var y :| y in was && was[y].adjustByMarket == Some(x);
        assert y in now;
      }
    }
  }

  /** The copy of a missing market configuration panics: there is no result then. */
  method GetUpdateParameters(config: ExchangeConfig, markets: map<MarketId, MarketCommon>) returns (r: Option<seq<MarketCommon>>)
    ensures r.None? <==> !(MarketsOn(config) <= markets.Keys)
    ensures r.Some? ==> IsUpdateFor(r.value, config, markets)
    ensures r.Some? && ProperMarkets(markets) ==> forall i, j :: 0 <= i < j < |r.value| ==> r.value[i].id < r.value[j].id
  {
    hide MarketsOn, IsListing;
    var needed := CollectMarkets(config);
    var ids := GetSortedKeys(needed);
    ListingDistinct(ids, needed);
    var copies: seq<MarketCommon> := [];
    for i := 0 to |ids|
      invariant forall m | m in ids[..i] :: m in markets
      invariant copies == Commons(ids[..i], markets)
    {
      if ids[i] !in markets { return None; }
      copies := copies + [markets[ids[i]]];
    }
    assert ids[..|ids|] == ids;
    return Some(copies);
  }

  // ---------------------------------------------------------------- deliveries

  datatype Subscriber = Encoder | Fetcher
  datatype Delivery = Delivery(to: Subscriber, config: ExchangeConfig)

  /** The configurations sent to a subscriber of an exchange, in order. */
  function Received(sent: seq<Delivery>, to: Subscriber, e: ExchangeId): seq<ExchangeConfig> {
    if sent == [] then []
    else var last := sent[|sent| - 1];
         Received(sent[..|sent| - 1], to, e) + if last.to == to && last.config.id == e then [last.config] else []
  }

  /** The fetcher has everything the encoder has, or everything but the last. */
  ghost predicate EncoderLeads(sent: seq<Delivery>, e: ExchangeId) {
    var encoder, fetcher := Received(sent, Encoder, e), Received(sent, Fetcher, e);
    encoder == fetcher || (encoder != [] && fetcher == encoder[..|encoder| - 1])
  }

  ghost predicate EncoderFirst(sent: seq<Delivery>) {
    forall k, e | 0 <= k <= |sent| :: EncoderLeads(sent[..k], e)
  }

  ghost predicate AllDelivered(sent: seq<Delivery>) {
    forall e :: Received(sent, Encoder, e) == Received(sent, Fetcher, e)
  }

  lemma NothingSent()
    ensures EncoderFirst([]) && AllDelivered([])
  {
  }

  lemma ReceivedAppend(sent: seq<Delivery>, d: Delivery)
    ensures forall to, e :: Received(sent + [d], to, e)
                         == Received(sent, to, e) + if d.to == to && d.config.id == e then [d.config] else []
  {
    assert (sent + [d])[..|sent|] == sent;
  }

  /** Sending to the encoder and then to the fetcher keeps the encoder first at every moment. */
  lemma PairKeepsOrder(sent: seq<Delivery>, config: ExchangeConfig)
    requires EncoderFirst(sent) && AllDelivered(sent)
    ensures var next := sent + [Delivery(Encoder, config)] + [Delivery(Fetcher, config)];
            EncoderFirst(next) && AllDelivered(next)
  {
    hide Received;
    var one := sent + [Delivery(Encoder, config)];
    var next := one + [Delivery(Fetcher, config)];
    ReceivedAppend(sent, Delivery(Encoder, config));
    ReceivedAppend(one, Delivery(Fetcher, config));
    forall k, e | 0 <= k <= |next| ensures EncoderLeads(next[..k], e) {
      if k <= |sent| {
        assert next[..k] == sent[..k];
      } else {
        assert next[..k] == one || next[..k] == next;
      }
    }
  }

  // ---------------------------------------------------------------- the registry

  datatype Updaters = Updaters(encoder: PriceEncoder, fetcher: PriceFetcher)

  /** What the subscribers of an exchange hold, and whether both are sound and belong to it. */
  datatype Holding = Holding(encoder: ExchangeConfig, fetcher: ExchangeConfig, known: map<MarketId, MarketCommon>, sound: bool)

  /** Both subscribers of every exchange hold the given configuration of it. */
  ghost predicate InSync(held: map<ExchangeId, Holding>, exchanges: map<ExchangeId, ExchangeConfig>) {
    && held.Keys == exchanges.Keys
    && forall e | e in held :: held[e].sound && held[e].encoder == held[e].fetcher == exchanges[e]
  }

  /** A missing list or clashing ids; a reference to a market that was not accepted; or an update. */
  datatype Outcome = Failed | Panicked | Updated(errors: map<MarketId, ParamError>, allAccepted: bool)

  /** What a broadcast starts from and what it is to bring about. */
  datatype Plan = Plan(updates: map<ExchangeId, seq<MarketCommon>>, t: Transformed, held: map<ExchangeId, Holding>, before: seq<Delivery>)

  ghost predicate Fits(plan: Plan) {
    && plan.held.Keys == plan.t.exchanges.Keys && ProperMarkets(plan.t.markets)
    && (forall e | e in plan.held ::
          && plan.t.exchanges[e].id == e
          && plan.held[e].sound && plan.held[e].encoder == plan.held[e].fetcher
          && (e in plan.updates <==> plan.held[e].encoder != plan.t.exchanges[e]))
    && (forall e | e in plan.updates :: e in plan.held && IsUpdateFor(plan.updates[e], plan.t.exchanges[e], plan.t.markets))
  }

  /** What an exchange holds once it is served: nothing new if its configuration did not change. */
  ghost function Served(plan: Plan, e: ExchangeId): Holding
    requires Fits(plan) && e in plan.held
  {
    var config := plan.t.exchanges[e];
    if e in plan.updates then Holding(config, config, Restrict(plan.t.markets, MarketsOn(config)), true) else plan.held[e]
  }

  ghost function NewDelivery(plan: Plan, e: ExchangeId): seq<ExchangeConfig>
    requires Fits(plan)
  {
    if e in plan.updates then [plan.t.exchanges[e]] else []
  }

  /** The exchanges that are left hold what they held; the others are served. */
  ghost predicate Reached(plan: Plan, left: set<ExchangeId>, held: map<ExchangeId, Holding>, sent: seq<Delivery>)
    requires Fits(plan)
  {
    && EncoderFirst(sent) && AllDelivered(sent) && held.Keys == plan.held.Keys
    && (forall e | e in held :: held[e] == if e in left then plan.held[e] else Served(plan, e))
    && (forall e :: Received(sent, Encoder, e)
                 == Received(plan.before, Encoder, e) + if e in left then [] else NewDelivery(plan, e))
  }

  lemma PlanFits(plan: Plan, exchanges: map<ExchangeId, ExchangeConfig>)
    requires InSync(plan.held, exchanges) && plan.t.exchanges.Keys == exchanges.Keys && ProperMarkets(plan.t.markets)
    requires forall e | e in exchanges :: plan.t.exchanges[e].id == e
    requires forall e :: e in plan.updates <==> e in exchanges && exchanges[e] != plan.t.exchanges[e]
    requires forall e | e in plan.updates :: IsUpdateFor(plan.updates[e], plan.t.exchanges[e], plan.t.markets)
    ensures Fits(plan) && plan.held.Keys == exchanges.Keys
  {
    hide IsUpdateFor, ProperMarkets;
  }

  lemma NothingToSend(plan: Plan, left: set<ExchangeId>, held: map<ExchangeId, Holding>, sent: seq<Delivery>, e: ExchangeId)
    requires Fits(plan) && Reached(plan, left, held, sent) && e in left && e !in plan.updates && e in held
    ensures Reached(plan, left - {e}, held, sent)
  {
    hide EncoderFirst, AllDelivered, IsUpdateFor, ProperMarkets, Received;
  }

  lemma SentReceived(plan: Plan, left: set<ExchangeId>, held: map<ExchangeId, Holding>, sent: seq<Delivery>, e: ExchangeId)
    requires Fits(plan) && Reached(plan, left, held, sent) && e in left && e in plan.updates
    ensures var config := plan.t.exchanges[e];
            var next := sent + [Delivery(Encoder, config)] + [Delivery(Fetcher, config)];
            && EncoderFirst(next) && AllDelivered(next)
            && forall x :: Received(next, Encoder, x)
                        == Received(plan.before, Encoder, x) + if x in left - {e} then [] else NewDelivery(plan, x)
  {
    hide EncoderFirst, AllDelivered, IsUpdateFor, ProperMarkets, Received, Served;
    var config := plan.t.exchanges[e];
    PairKeepsOrder(sent, config);
    ReceivedAppend(sent, Delivery(Encoder, config));
    ReceivedAppend(sent + [Delivery(Encoder, config)], Delivery(Fetcher, config));
    forall x ensures Received(sent + [Delivery(Encoder, config)] + [Delivery(Fetcher, config)], Encoder, x)
                  == Received(plan.before, Encoder, x) + if x in left - {e} then [] else NewDelivery(plan, x) {
      assert Received(sent, Encoder, x) == Received(plan.before, Encoder, x) + if x in left then [] else NewDelivery(plan, x);
    }
  }

  lemma SentStep(plan: Plan, left: set<ExchangeId>, held: map<ExchangeId, Holding>, sent: seq<Delivery>, e: ExchangeId)
    requires Fits(plan) && Reached(plan, left, held, sent) && e in left && e in plan.updates
    ensures var config := plan.t.exchanges[e];
            && ValidUpdate(config, plan.updates[e])
            && Reached(plan, left - {e}, held[e := Holding(config, config, ById(plan.updates[e]), true)],
                       sent + [Delivery(Encoder, config)] + [Delivery(Fetcher, config)])
  {
    hide EncoderFirst, AllDelivered, IsUpdateFor, ProperMarkets, Received, NewDelivery, ValidUpdate, ById, Restrict, MarketsOn;
    SentReceived(plan, left, held, sent, e);
    UpdateIsValid(plan.updates[e], plan.t.exchanges[e], plan.t.markets);
  }

  lemma ReachedSound(plan: Plan, left: set<ExchangeId>, held: map<ExchangeId, Holding>, sent: seq<Delivery>)
    requires Fits(plan) && Reached(plan, left, held, sent)
    ensures forall e | e in held :: held[e].sound
    ensures held.Keys == plan.t.exchanges.Keys && forall e | e in plan.updates :: plan.t.exchanges[e].id == e
  {
    hide EncoderFirst, AllDelivered, IsUpdateFor, ProperMarkets, Received, Restrict, MarketsOn;
  }

  lemma BroadcastStarts(plan: Plan, all: set<ExchangeId>, sent: seq<Delivery>)
    requires Fits(plan) && all == plan.held.Keys && plan.before == sent && EncoderFirst(sent) && AllDelivered(sent)
    ensures Reached(plan, all, plan.held, sent)
  {
    hide EncoderFirst, AllDelivered, IsUpdateFor, ProperMarkets, Received, Restrict, MarketsOn;
    forall e ensures Received(sent, Encoder, e) == Received(sent, Encoder, e) + if e in all then [] else NewDelivery(plan, e) {
    }
  }

  /** A changed configuration is sent once, with the markets it refers to; an unchanged one is not. */
  ghost predicate PushedChanges(was: map<ExchangeId, Holding>, held: map<ExchangeId, Holding>,
                                before: seq<Delivery>, sent: seq<Delivery>, t: Transformed) {
    && was.Keys == held.Keys == t.exchanges.Keys
    && forall e | e in held ::
         if was[e].encoder != t.exchanges[e]
         then held[e].known == Restrict(t.markets, MarketsOn(t.exchanges[e]))
              && Received(sent, Encoder, e) == Received(before, Encoder, e) + [t.exchanges[e]]
         else held[e].known == was[e].known && Received(sent, Encoder, e) == Received(before, Encoder, e)
  }

  lemma BroadcastEnds(plan: Plan, held: map<ExchangeId, Holding>, sent: seq<Delivery>)
    requires Fits(plan) && Reached(plan, {}, held, sent)
    ensures EncoderFirst(sent) && AllDelivered(sent)
    ensures InSync(held, plan.t.exchanges) && PushedChanges(plan.held, held, plan.before, sent, plan.t)
  {
    hide EncoderFirst, AllDelivered, IsUpdateFor, ProperMarkets, Received, Restrict, MarketsOn;
  }

  class PricefeedMutableMarketConfigs {
    var exchanges: map<ExchangeId, ExchangeConfig>
    var markets: map<MarketId, MarketCommon>
    const updaters: map<ExchangeId, Updaters>
    ghost var sent: seq<Delivery>

    ghost function Subscribers(): set<object> {
      (set e | e in updaters :: updaters[e].encoder as object) + (set e | e in updaters :: updaters[e].fetcher as object)
    }

    ghost function HeldBy(e: ExchangeId): Holding
      requires e in updaters
      reads updaters[e].encoder, updaters[e].fetcher
    {
      var encoder, fetcher := updaters[e].encoder, updaters[e].fetcher;
      Holding(encoder.config, fetcher.config, encoder.markets,
              encoder.exchangeId == fetcher.exchangeId == e && encoder.Valid() && fetcher.Valid())
    }

    ghost function Held(): (held: map<ExchangeId, Holding>)
      reads Subscribers()
      ensures held.Keys == updaters.Keys
    {
      map e | e in updaters :: HeldBy(e)
    }

    /** Every subscriber of every exchange holds the registry's configuration of it. */
    ghost predicate Valid()
      reads this, Subscribers()
    {
      InSync(Held(), exchanges) && EncoderFirst(sent) && AllDelivered(sent)
    }

    /** The registry once all subscribers are known, each created without markets. */
    constructor (updaters: map<ExchangeId, Updaters>)
      requires forall e | e in updaters ::
                 && updaters[e].encoder.exchangeId == updaters[e].fetcher.exchangeId == e
                 && updaters[e].encoder.Valid() && updaters[e].fetcher.Valid()
                 && updaters[e].encoder.config == updaters[e].fetcher.config == ExchangeConfig(e, map[])
      ensures Valid() && this.updaters == updaters
      ensures exchanges == (map e | e in updaters :: ExchangeConfig(e, map[])) && markets == map[]
    {
      hide EncoderFirst, AllDelivered, MarketsOn, IsListing;
      this.updaters := updaters;
      exchanges, markets := map e | e in updaters :: ExchangeConfig(e, map[]), map[];
      sent := [];
      new;
      NothingSent();
    }

    /** Update the encoder first, then the fetcher. */
    method DeliverPair(e: ExchangeId, config: ExchangeConfig, update: seq<MarketCommon>) returns (ok: bool)
      requires e in updaters && HeldBy(e).sound && config.id == e && ValidUpdate(config, update)
      modifies this`sent, updaters[e].encoder, updaters[e].fetcher
      ensures ok && HeldBy(e) == Holding(config, config, ById(update), true)
      ensures sent == old(sent) + [Delivery(Encoder, config)] + [Delivery(Fetcher, config)]
    {
      hide ValidUpdate, ById;
      var encoder, fetcher := updaters[e].encoder, updaters[e].fetcher;
      var encoderOk := encoder.UpdateMutableExchangeConfig(config, update);
      sent := sent + [Delivery(Encoder, config)];
      var fetcherOk := fetcher.UpdateMutableExchangeConfig(config, update);
      sent := sent + [Delivery(Fetcher, config)];
      ok := encoderOk && fetcherOk;
    }

    lemma OwnSubscribers(e: ExchangeId, x: ExchangeId)
      requires e in updaters && x in updaters && x != e && HeldBy(e).sound && HeldBy(x).sound
      ensures updaters[x].encoder != updaters[e].encoder && updaters[x].fetcher != updaters[e].fetcher
    {
    }

    method Deliver(e: ExchangeId, config: ExchangeConfig, update: seq<MarketCommon>) returns (ok: bool)
      requires e in updaters && config.id == e && ValidUpdate(config, update)
      requires forall x | x in Held() :: Held()[x].sound
      modifies this`sent, Subscribers()
      ensures ok && Held() == old(Held())[e := Holding(config, config, ById(update), true)]
      ensures sent == old(sent) + [Delivery(Encoder, config)] + [Delivery(Fetcher, config)]
    {
      hide ValidUpdate, ById, HeldBy;
      assert updaters[e].encoder in Subscribers() && updaters[e].fetcher in Subscribers();
      forall x | x in updaters && x != e
        ensures updaters[x].encoder != updaters[e].encoder && updaters[x].fetcher != updaters[e].fetcher
      {
        assert Held()[x].sound && Held()[e].sound;
        OwnSubscribers(e, x);
      }
      assert Held()[e].sound;
      ok := DeliverPair(e, config, update);
    }

    /** The updates for the exchanges whose configuration changes; none if a reference does not resolve. */
    method ComputeUpdates(t: Transformed) returns (r: Option<map<ExchangeId, seq<MarketCommon>>>)
      requires exchanges.Keys == t.exchanges.Keys
      ensures r.None? <==> Unresolved(exchanges, t)
      ensures r.Some? ==> forall e :: e in r.value <==> e in exchanges && exchanges[e] != t.exchanges[e]
      ensures r.Some? ==> forall e | e in r.value :: IsUpdateFor(r.value[e], t.exchanges[e], t.markets)
    {
      hide IsUpdateFor;
      var updates := map[];
      var left := exchanges.Keys;
      while left != {}
        invariant left <= exchanges.Keys
        invariant forall e | e in exchanges && e !in left && exchanges[e] != t.exchanges[e] :: Resolves(t, e)
        invariant forall e :: e in updates <==> e in exchanges && e !in left && exchanges[e] != t.exchanges[e]
        invariant forall e | e in updates :: IsUpdateFor(updates[e], t.exchanges[e], t.markets)
      {
        var e :| e in left;
        left := left - {e};
        var equal := Equal(exchanges[e], t.exchanges[e]);
        if !equal {
          var update := GetUpdateParameters(t.exchanges[e], t.markets);
          if update.None? { return None; }
          updates := updates[e := update.value];
        }
      }
      return Some(updates);
    }

    /** Send every update, the encoder of an exchange before its fetcher; no subscriber rejects one. */
    method Broadcast(updates: map<ExchangeId, seq<MarketCommon>>, t: Transformed, ghost plan: Plan)
      returns (allAccepted: bool)
      requires Fits(plan) && Reached(plan, updaters.Keys, Held(), sent) && plan.updates == updates && plan.t == t
      modifies this`sent, Subscribers()
      ensures allAccepted && Reached(plan, {}, Held(), sent)
    {
      hide Reached, HeldBy, IsUpdateFor, ProperMarkets, Received, ValidUpdate, ById, MarketsOn, Restrict;
      allAccepted := true;
      var left := updaters.Keys;
      while left != {}
        invariant left <= updaters.Keys && allAccepted && Reached(plan, left, Held(), sent)
      {
        var e :| e in left;
        ReachedSound(plan, left, Held(), sent);
        if e in updates {
          SentStep(plan, left, Held(), sent, e);
          var ok := Deliver(e, t.exchanges[e], updates[e]);
          allAccepted := allAccepted && ok;
        } else {
          NothingToSend(plan, left, Held(), sent, e);
        }
        left := left - {e};
      }
    }

    /**
     `UpdateMarkets`. Whatever the outcome, every subscriber afterwards holds the registry's
     configuration of its exchange, although only changed configurations are sent.
     */
    method UpdateMarkets(json: Json, marketParams: Option<seq<MarketParam>>) returns (outcome: Outcome, ghost t: Transformed)
      requires Valid()
      modifies this, Subscribers()
      ensures Valid()
      ensures outcome.Failed? <==>
                marketParams.None?
                || Clash(json, old(exchanges.Keys), NameToId(marketParams.value), marketParams.value)
      ensures !outcome.Failed? ==>
                Describes(json, old(exchanges.Keys), NameToId(marketParams.value), marketParams.value, t)
      ensures outcome.Panicked? <==>
                !outcome.Failed? && AsksUnaccepted(json, NameToId(marketParams.value), marketParams.value, old(exchanges))
      ensures outcome.Updated? ==>
                && outcome.errors == t.errors && outcome.allAccepted
                && exchanges == t.exchanges && markets == t.markets
                && PushedChanges(old(Held()), Held(), old(sent), sent, t)
      ensures !outcome.Updated? ==> exchanges == old(exchanges) && markets == old(markets) && sent == old(sent)
    {
      hide HeldBy, InSync, PushedChanges, EncoderFirst, AllDelivered, IsUpdateFor, ProperMarkets, Describes, Clash, Unresolved, AsksUnaccepted;
      OwnIds();
      var r := ValidateAndTransformParams(json, exchanges.Keys, marketParams);
      if r.None? { return Failed, Transformed(map[], map[], map[]); }
      var next := r.value;
      t := next;
      TransformIds(json, exchanges.Keys, NameToId(marketParams.value), marketParams.value, next);
      PanicsExactly(json, NameToId(marketParams.value), marketParams.value, next, exchanges);
      var updates := ComputeUpdates(next);
      if updates.None? { return Panicked, t; }
      var allAccepted := SwapAndBroadcast(updates.value, next);
      outcome := Updated(next.errors, allAccepted);
    }

    lemma OwnIds()
      requires Valid()
      ensures forall e | e in exchanges :: exchanges[e].id == e
    {
      forall e | e in exchanges ensures exchanges[e].id == e {
        assert Held()[e].sound;
      }
    }

    method SwapAndBroadcast(updates: map<ExchangeId, seq<MarketCommon>>, t: Transformed) returns (allAccepted: bool)
      requires Valid() && t.exchanges.Keys == exchanges.Keys && ProperMarkets(t.markets)
      requires forall e | e in exchanges :: t.exchanges[e].id == e
      requires forall e :: e in updates <==> e in exchanges && exchanges[e] != t.exchanges[e]
      requires forall e | e in updates :: IsUpdateFor(updates[e], t.exchanges[e], t.markets)
      modifies this, Subscribers()
      ensures Valid() && allAccepted && exchanges == t.exchanges && markets == t.markets
      ensures PushedChanges(old(Held()), Held(), old(sent), sent, t)
    {
      hide HeldBy, EncoderFirst, AllDelivered, IsUpdateFor, ProperMarkets, InSync, PushedChanges, Fits, Reached, Held;
      ghost var plan := Plan(updates, t, Held(), sent);
      PlanFits(plan, exchanges);
      BroadcastStarts(plan, updaters.Keys, sent);
      assert this !in Subscribers();
      exchanges, markets := t.exchanges, t.markets;
      assert Held() == plan.held;
      allAccepted := Broadcast(updates, t, plan);
      BroadcastEnds(plan, Held(), sent);
    }

    /** The configurations of the markets asked for, in that order; none if one is unknown. */
    method GetMarketConfigCopies(ids: seq<MarketId>) returns (r: Option<seq<MarketCommon>>)
      ensures r.Some? <==> forall m | m in ids :: m in markets
      ensures r.Some? ==>
                |r.value| == |ids| && forall i :: 0 <= i < |ids| ==> ids[i] in markets && r.value[i] == markets[ids[i]]
    {
      var copies: seq<MarketCommon> := [];
      for i := 0 to |ids|
        invariant forall m | m in ids[..i] :: m in markets
        invariant copies == Commons(ids[..i], markets)
      {
        if ids[i] !in markets { return None; }
        copies := copies + [markets[ids[i]]];
      }
      assert ids[..|ids|] == ids;
      return Some(copies);
    }
  }

  /** Every market that the configuration of an exchange refers to was accepted. */
  ghost predicate Resolves(t: Transformed, e: ExchangeId)
    requires e in t.exchanges
  {
    MarketsOn(t.exchanges[e]) <= t.markets.Keys
  }

  /** Some configuration that changes refers to a market that was not accepted. */
  ghost predicate Unresolved(was: map<ExchangeId, ExchangeConfig>, t: Transformed) {
    exists e :: e in was && e in t.exchanges && was[e] != t.exchanges[e] && !Resolves(t, e)
  }

  lemma TransformIds(json: Json, ids: set<ExchangeId>, names: map<Text, MarketId>, ps: seq<MarketParam>, t: Transformed)
    requires Describes(json, ids, names, ps, t)
    ensures t.exchanges.Keys == ids && forall e | e in ids :: t.exchanges[e].id == e
    ensures ProperMarkets(t.markets)
  {
    hide Asked;
    forall m | m in t.markets ensures t.markets[m].id == m && ValidCommon(t.markets[m]) {
      var p :| p in ps && p.id == m && Judge(json, ids, names, p).None?;
      assert t.markets[p.id] == CommonOf(p);
    }
  }

  /** `MutableExchangeMarketConfig.Equal`: the sizes, and then the entries of one in the other. */
  method Equal(a: ExchangeConfig, b: ExchangeConfig) returns (equal: bool)
    ensures equal <==> a == b
  {
    if a.id != b.id { return false; }
    if |a.markets| != |b.markets| { return false; }
    var left := a.markets.Keys;
    while left != {}
      invariant left <= a.markets.Keys
      invariant forall m | m in a.markets && m !in left :: m in b.markets && b.markets[m] == a.markets[m]
    {
      var m :| m in left;
      left := left - {m};
      if m !in b.markets { return false; }
      if b.markets[m] != a.markets[m] { return false; }
    }
    SameSize(a.markets.Keys, b.markets.Keys);
    assert a.markets == b.markets;
    return true;
  }

  lemma {:induction false} SameSize<T>(a: set<T>, b: set<T>)
    requires a <= b && |a| == |b|
    ensures a == b
  {
    assert b == a + (b - a);
    assert |b| == |a| + |b - a|;
  }

  // ---------------------------------------------------------------- when an update panics

  /** The accepted parameters ask for something else on an exchange than it has. */
  ghost predicate Changes(json: Json, ids: set<ExchangeId>, names: map<Text, MarketId>, ps: seq<MarketParam>,
                          was: ExchangeConfig, e: ExchangeId) {
    exists m, c :: Has(was, m, c) != Asks(json, ids, names, ps, e, m, c)
  }

  /** On an exchange that changes an accepted parameter asks for an adjust-by market that no accepted parameter has. */
  ghost predicate AsksUnaccepted(json: Json, names: map<Text, MarketId>, ps: seq<MarketParam>, was: map<ExchangeId, ExchangeConfig>) {
    exists e, m, c ::
      && e in was && Changes(json, was.Keys, names, ps, was[e], e) && Asks(json, was.Keys, names, ps, e, m, c)
      && c.adjustByMarket.Some? && !Accepts(json, was.Keys, names, ps, c.adjustByMarket.value)
  }

  lemma ChangesExactly(json: Json, ids: set<ExchangeId>, names: map<Text, MarketId>, ps: seq<MarketParam>, t: Transformed,
                       was: ExchangeConfig, e: ExchangeId)
    requires Describes(json, ids, names, ps, t) && e in ids && was.id == e
    ensures e in t.exchanges && (was != t.exchanges[e] <==> Changes(json, ids, names, ps, was, e))
  {
    hide Asked, Asks, Describes;
    TransformIds(json, ids, names, ps, t);
    var now := t.exchanges[e];
    forall m, c ensures Has(now, m, c) <==> Asks(json, ids, names, ps, e, m, c) {
      ExchangeHas(json, ids, names, ps, t, e, m, c);
    }
    if !Changes(json, ids, names, ps, was, e) { SameEntries(was, now); }
  }

  lemma SameEntries(a: ExchangeConfig, b: ExchangeConfig)
    requires a.id == b.id && forall m, c :: Has(a, m, c) == Has(b, m, c)
    ensures a == b
  {
    forall m ensures m in a.markets <==> m in b.markets {
      if m in a.markets { assert Has(a, m, a.markets[m]); }
      if m in b.markets { assert Has(b, m, b.markets[m]); }
    }
    forall m | m in a.markets ensures a.markets[m] == b.markets[m] {
      assert Has(a, m, a.markets[m]);
    }
    assert a.markets == b.markets;
  }

  lemma ResolvesExactly(json: Json, ids: set<ExchangeId>, names: map<Text, MarketId>, ps: seq<MarketParam>, t: Transformed, e: ExchangeId)
    requires Describes(json, ids, names, ps, t) && e in ids
    ensures e in t.exchanges
    ensures !Resolves(t, e) <==>
              exists m, c :: Asks(json, ids, names, ps, e, m, c)
                && c.adjustByMarket.Some? && !Accepts(json, ids, names, ps, c.adjustByMarket.value)
  {
    hide Asked, Asks, Accepts, Judge, CommonOf;
    TransformSound(json, ids, names, ps, t);
    var config := t.exchanges[e];
    MarketsOnHas(config);
    forall m, c ensures Has(config, m, c) <==> Asks(json, ids, names, ps, e, m, c) {
      ExchangeHas(json, ids, names, ps, t, e, m, c);
    }
    forall m ensures m in t.markets <==> Accepts(json, ids, names, ps, m) {
      MarketsAccepted(json, ids, names, ps, t, m);
    }
    if !Resolves(t, e) {
      var x :| x in MarketsOn(config) && x !in t.markets;
      var m :| m in config.markets && config.markets[m].adjustByMarket == Some(x);
      assert Has(config, m, config.markets[m]);
    }
  }

  /** An update panics exactly if on an exchange that changes a market is adjusted by one that is not accepted. */
  lemma PanicsExactly(json: Json, names: map<Text, MarketId>, ps: seq<MarketParam>, t: Transformed, was: map<ExchangeId, ExchangeConfig>)
    requires Describes(json, was.Keys, names, ps, t) && forall e | e in was :: was[e].id == e
    ensures Unresolved(was, t) <==> AsksUnaccepted(json, names, ps, was)
  {
    hide Describes, Changes, Asks, Accepts, Resolves;
    TransformIds(json, was.Keys, names, ps, t);
    forall e | e in was
      ensures was[e] != t.exchanges[e] <==> Changes(json, was.Keys, names, ps, was[e], e)
      ensures !Resolves(t, e) <==>
                exists m, c :: Asks(json, was.Keys, names, ps, e, m, c)
                  && c.adjustByMarket.Some? && !Accepts(json, was.Keys, names, ps, c.adjustByMarket.value)
    {
      ChangesExactly(json, was.Keys, names, ps, t, was[e], e);
      ResolvesExactly(json, was.Keys, names, ps, t, e);
    }
  }

  /**
   Such an update, in every state of the registry: a valid market that an exchange does not have yet is adjusted by
   another one, which is rejected because it wants no exchanges at all.
   */
  lemma RejectedAdjustmentPanics(json: Json, was: map<ExchangeId, ExchangeConfig>, p: MarketParam, q: MarketParam, x: ExchangeMarketJson)
    requires p.id != q.id && p.pair != q.pair && q.pair != [] && q.minExchanges == 0
    requires ValidParam(json, p) && json.exchanges(p.exchangeConfigJson) == Some([x])
    requires x.exchangeName != [] && x.exchangeName in was && x.ticker != [] && x.adjustByMarket == q.pair
    requires p.id !in was[x.exchangeName].markets
    ensures !Clash(json, was.Keys, NameToId([p, q]), [p, q]) && AsksUnaccepted(json, NameToId([p, q]), [p, q], was)
  {
    var ps, e, c := [p, q], x.exchangeName, MarketConfig(x.ticker, Some(q.id), x.invert);
    var names := NameToId(ps);
    TwoNames(p, q);
    assert ValidEntry(x, was.Keys, names.Keys);
    assert Judge(json, was.Keys, names, p).None? && Judge(json, was.Keys, names, q).Some?;
    WantedOf(x, names);
    assert p in ps && Asked(json, was.Keys, names, p, e) == Some(c);
    assert Asks(json, was.Keys, names, ps, e, p.id, c);
    assert !Has(was[e], p.id, c);
  }

  lemma TwoNames(p: MarketParam, q: MarketParam)
    ensures NameToId([p, q]) == map[p.pair := p.id][q.pair := q.id]
  {
    assert [p, q][..1] == [p];
    assert NameToId([p]) == NameToId([])[p.pair := p.id];
  }

  lemma WantedOf(x: ExchangeMarketJson, names: map<Text, MarketId>)
    requires x.adjustByMarket != [] ==> x.adjustByMarket in names
    ensures Wanted([x], names, x.exchangeName) == Some(ConfigOf(x, names))
  {
  }
}
