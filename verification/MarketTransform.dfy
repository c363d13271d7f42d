/**
 `ValidateAndTransformParams`: market parameters are judged one by one and turned into one
 configuration per exchange, one per market, and one error per rejected parameter.
 */
module MarketTransform {
  import opened MarketParams
  import opened Options

  datatype ParamError = InvalidParam | InvalidJson | InvalidExchanges

  datatype Transformed = Transformed(
    exchanges: map<ExchangeId, ExchangeConfig>,
    markets: map<MarketId, MarketCommon>,
    errors: map<MarketId, ParamError>
  )

  // ---------------------------------------------------------------- what a parameter asks for

  function NameToId(ps: seq<MarketParam>): map<Text, MarketId> {
    if ps == [] then map[]
    else var last := ps[|ps| - 1]; NameToId(ps[..|ps| - 1])[last.pair := last.id]
  }

  function ConfigOf(x: ExchangeMarketJson, names: map<Text, MarketId>): MarketConfig
    requires x.adjustByMarket != [] ==> x.adjustByMarket in names
  {
    MarketConfig(x.ticker, if x.adjustByMarket != [] then Some(names[x.adjustByMarket]) else None, x.invert)
  }

  function CommonOf(p: MarketParam): MarketCommon {
    MarketCommon(p.id, p.pair, p.exponent, p.minExchanges)
  }

  predicate ValidEntries(xs: seq<ExchangeMarketJson>, exchanges: set<ExchangeId>, names: map<Text, MarketId>) {
    forall x | x in xs :: ValidEntry(x, exchanges, names.Keys)
  }

  /** What is found wrong with a parameter, considered alone. */
  function Judge(json: Json, exchanges: set<ExchangeId>, names: map<Text, MarketId>, p: MarketParam): Option<ParamError> {
    if !ValidParam(json, p) then Some(InvalidParam)
    else match json.exchanges(p.exchangeConfigJson)
         case None => Some(InvalidJson)
         case Some(xs) => if xs != [] && ValidEntries(xs, exchanges, names) then None else Some(InvalidExchanges)
  }

  /** Every adjust-by market that is named has an id. */
  predicate Resolved(xs: seq<ExchangeMarketJson>, names: map<Text, MarketId>) {
    forall x | x in xs :: x.adjustByMarket != [] ==> x.adjustByMarket in names
  }

  /** The configuration that the entries of a market give it on an exchange: the last one counts. */
  function Wanted(xs: seq<ExchangeMarketJson>, names: map<Text, MarketId>, exchange: ExchangeId): Option<MarketConfig>
    requires Resolved(xs, names)
  {
    if xs == [] then None
    else var last := xs[|xs| - 1];
         if last.exchangeName == exchange then Some(ConfigOf(last, names)) else Wanted(xs[..|xs| - 1], names, exchange)
  }

  /** The configuration that a parameter asks for on an exchange; none if it is rejected. */
  function Asked(json: Json, exchanges: set<ExchangeId>, names: map<Text, MarketId>, p: MarketParam, exchange: ExchangeId)
    : Option<MarketConfig>
  {
    if Judge(json, exchanges, names, p).Some? then None
    else Wanted(json.exchanges(p.exchangeConfigJson).value, names, exchange)
  }

  // ---------------------------------------------------------------- what the result must be

  /** An accepted parameter is followed by another one with its id whose own fields are valid. */
  ghost predicate Clashes(json: Json, exchanges: set<ExchangeId>, names: map<Text, MarketId>, ps: seq<MarketParam>, i: nat, j: nat) {
    && i < j < |ps| && ps[i].id == ps[j].id
    && Judge(json, exchanges, names, ps[i]).None? && ValidParam(json, ps[j])
  }

  ghost predicate Clash(json: Json, exchanges: set<ExchangeId>, names: map<Text, MarketId>, ps: seq<MarketParam>) {
    exists i, j :: Clashes(json, exchanges, names, ps, i, j)
  }

  /** The result holds what the accepted parameters ask for, and nothing else. */
  ghost predicate HoldsAccepted(json: Json, exchanges: set<ExchangeId>, names: map<Text, MarketId>, ps: seq<MarketParam>, t: Transformed) {
    && t.exchanges.Keys == exchanges
    && (forall e | e in exchanges :: t.exchanges[e].id == e)
    && (forall p | p in ps && Judge(json, exchanges, names, p).None? ::
          && p.id in t.markets && t.markets[p.id] == CommonOf(p)
          && forall e | e in exchanges :: Asked(json, exchanges, names, p, e) ==
               if p.id in t.exchanges[e].markets then Some(t.exchanges[e].markets[p.id]) else None)
    && (forall m | m in t.markets :: exists p :: p in ps && p.id == m && Judge(json, exchanges, names, p).None?)
    && (forall e, m | e in exchanges && m in t.exchanges[e].markets :: m in t.markets)
  }

  /** There is an error for the id of every rejected parameter, one that some such parameter has. */
  ghost predicate HoldsRejected(json: Json, exchanges: set<ExchangeId>, names: map<Text, MarketId>, ps: seq<MarketParam>,
                                errors: map<MarketId, ParamError>) {
    && (forall p | p in ps && Judge(json, exchanges, names, p).Some? :: p.id in errors)
    && (forall m | m in errors :: exists p :: p in ps && p.id == m && Judge(json, exchanges, names, p) == Some(errors[m]))
  }

  ghost predicate Describes(json: Json, exchanges: set<ExchangeId>, names: map<Text, MarketId>, ps: seq<MarketParam>, t: Transformed) {
    HoldsAccepted(json, exchanges, names, ps, t) && HoldsRejected(json, exchanges, names, ps, t.errors)
  }

  // ---------------------------------------------------------------- the code

  method ValidateEntries(xs: seq<ExchangeMarketJson>, exchanges: set<ExchangeId>, names: map<Text, MarketId>) returns (ok: bool)
    ensures ok <==> xs != [] && ValidEntries(xs, exchanges, names)
  {
    if |xs| == 0 { return false; }
    for i := 0 to |xs|
      invariant ValidEntries(xs[..i], exchanges, names)
    {
      if !ValidEntry(xs[i], exchanges, names.Keys) { return false; }
    }
    assert xs[..|xs|] == xs;
    return true;
  }

  /** The configuration of an exchange with what the entries of a market add to it. */
  function With(config: ExchangeConfig, m: MarketId, wanted: Option<MarketConfig>): ExchangeConfig {
    if wanted.Some? then config.(markets := config.markets[m := wanted.value]) else config
  }

  /** Every exchange has what the entries of a market add to it. */
  ghost predicate Added(configs0: map<ExchangeId, ExchangeConfig>, configs: map<ExchangeId, ExchangeConfig>,
                        xs: seq<ExchangeMarketJson>, names: map<Text, MarketId>, m: MarketId)
    requires Resolved(xs, names)
  {
    && configs.Keys == configs0.Keys
    && forall e | e in configs :: configs[e] == With(configs0[e], m, Wanted(xs, names, e))
  }

  method AddEntry(ghost configs0: map<ExchangeId, ExchangeConfig>, configs: map<ExchangeId, ExchangeConfig>,
                  ghost done: seq<ExchangeMarketJson>, x: ExchangeMarketJson, names: map<Text, MarketId>, m: MarketId)
    returns (next: map<ExchangeId, ExchangeConfig>)
    requires Resolved(done, names) && ValidEntry(x, configs0.Keys, names.Keys) && Added(configs0, configs, done, names, m)
    ensures Resolved(done + [x], names) && Added(configs0, next, done + [x], names, m)
  {
    hide Wanted, ConfigOf;
    var config := configs[x.exchangeName];
    next := configs[x.exchangeName := config.(markets := config.markets[m := ConfigOf(x, names)])];
    WantedAppend(done, x, names);
  }

  lemma WantedAppend(xs: seq<ExchangeMarketJson>, x: ExchangeMarketJson, names: map<Text, MarketId>)
    requires Resolved(xs, names) && (x.adjustByMarket != [] ==> x.adjustByMarket in names)
    ensures Resolved(xs + [x], names)
    ensures forall e :: Wanted(xs + [x], names, e) == if x.exchangeName == e then Some(ConfigOf(x, names)) else Wanted(xs, names, e)
  {
    hide ConfigOf;
    assert (xs + [x])[..|xs|] == xs;
  }

  /** The inner loop over the exchanges of a market; the error checks in it cannot fire for valid entries. */
  method AddEntries(configs0: map<ExchangeId, ExchangeConfig>, xs: seq<ExchangeMarketJson>, names: map<Text, MarketId>, m: MarketId)
    returns (configs: map<ExchangeId, ExchangeConfig>)
    requires ValidEntries(xs, configs0.Keys, names)
    ensures Resolved(xs, names) && Added(configs0, configs, xs, names, m)
  {
    hide Added, Resolved;
    configs := configs0;
    NothingAdded(configs0, names, m);
    for i := 0 to |xs|
      invariant Resolved(xs[..i], names) && Added(configs0, configs, xs[..i], names, m)
    {
      configs := AddEntry(configs0, configs, xs[..i], xs[i], names, m);
      assert xs[..i + 1] == xs[..i] + [xs[i]];
    }
    assert xs[..|xs|] == xs;
  }

  lemma NothingAdded(configs: map<ExchangeId, ExchangeConfig>, names: map<Text, MarketId>, m: MarketId)
    ensures Resolved([], names) && Added(configs, configs, [], names, m)
  {
  }

  method IndexByName(ps: seq<MarketParam>) returns (names: map<Text, MarketId>)
    ensures names == NameToId(ps)
  {
    names := map[];
    for i := 0 to |ps|
      invariant names == NameToId(ps[..i])
    {
      assert ps[..i + 1][..i] == ps[..i];
      names := names[ps[i].pair := ps[i].id];
    }
    assert ps[..|ps|] == ps;
  }

  lemma RejectedStep(json: Json, exchanges: set<ExchangeId>, names: map<Text, MarketId>, ps: seq<MarketParam>, p: MarketParam,
                     errors: map<MarketId, ParamError>)
    requires HoldsRejected(json, exchanges, names, ps, errors)
    ensures var verdict := Judge(json, exchanges, names, p);
            HoldsRejected(json, exchanges, names, ps + [p], if verdict.Some? then errors[p.id := verdict.value] else errors)
  {
    hide Judge;
    var all, verdict := ps + [p], Judge(json, exchanges, names, p);
    var errors' := if verdict.Some? then errors[p.id := verdict.value] else errors;
    forall m | m in errors' ensures exists q :: q in all && q.id == m && Judge(json, exchanges, names, q) == Some(errors'[m]) {
      if verdict.Some? && m == p.id {
        assert p in all;
      } else {
        var q :| q in ps && q.id == m && Judge(json, exchanges, names, q) == Some(errors[m]);
        assert q in all;
      }
    }
  }

  lemma AcceptedSkip(json: Json, exchanges: set<ExchangeId>, names: map<Text, MarketId>, ps: seq<MarketParam>, p: MarketParam,
                     t: Transformed, errors: map<MarketId, ParamError>)
    requires HoldsAccepted(json, exchanges, names, ps, t) && Judge(json, exchanges, names, p).Some?
    ensures HoldsAccepted(json, exchanges, names, ps + [p], t.(errors := errors))
  {
    hide Judge, Asked, CommonOf;
    forall m | m in t.markets ensures exists q :: q in ps + [p] && q.id == m && Judge(json, exchanges, names, q).None? {
      var q :| q in ps && q.id == m && Judge(json, exchanges, names, q).None?;
      assert q in ps + [p];
    }
  }

  /** What the accepted parameters ask for is still there, and the new one's wishes are. */
  lemma AcceptedAsked(json: Json, exchanges: set<ExchangeId>, names: map<Text, MarketId>, ps: seq<MarketParam>, p: MarketParam,
                      t: Transformed, configs: map<ExchangeId, ExchangeConfig>, q: MarketParam, e: ExchangeId)
    requires HoldsAccepted(json, exchanges, names, ps, t) && p.id !in t.markets && e in exchanges && e in configs
    requires configs[e] == With(t.exchanges[e], p.id, Asked(json, exchanges, names, p, e))
    requires q == p || (q in ps && Judge(json, exchanges, names, q).None?)
    ensures Asked(json, exchanges, names, q, e) ==
            if q.id in configs[e].markets then Some(configs[e].markets[q.id]) else None
  {
    hide Judge, Asked, CommonOf;
    assert p.id !in t.exchanges[e].markets;
    if q != p { assert q.id in t.markets; }
  }

  lemma AcceptedStep(json: Json, exchanges: set<ExchangeId>, names: map<Text, MarketId>, ps: seq<MarketParam>, p: MarketParam,
                     t: Transformed, configs: map<ExchangeId, ExchangeConfig>)
    requires HoldsAccepted(json, exchanges, names, ps, t) && Judge(json, exchanges, names, p).None? && p.id !in t.markets
    requires configs.Keys == exchanges
    requires forall e | e in exchanges :: configs[e] == With(t.exchanges[e], p.id, Asked(json, exchanges, names, p, e))
    ensures HoldsAccepted(json, exchanges, names, ps + [p], Transformed(configs, t.markets[p.id := CommonOf(p)], t.errors))
  {
    hide Judge, Asked, CommonOf;
    var all, u := ps + [p], Transformed(configs, t.markets[p.id := CommonOf(p)], t.errors);
    forall m | m in u.markets ensures exists q :: q in all && q.id == m && Judge(json, exchanges, names, q).None? {
      if m == p.id {
        assert p in all;
      } else {
        var q :| q in ps && q.id == m && Judge(json, exchanges, names, q).None?;
        assert q in all;
      }
    }
    forall q, e | q in all && Judge(json, exchanges, names, q).None? && e in exchanges
      ensures Asked(json, exchanges, names, q, e) ==
              if q.id in u.exchanges[e].markets then Some(u.exchanges[e].markets[q.id]) else None
    {
      AcceptedAsked(json, exchanges, names, ps, p, t, configs, q, e);
    }
    forall e, m | e in exchanges && m in u.exchanges[e].markets ensures m in u.markets {
      assert m == p.id || m in t.exchanges[e].markets;
    }
  }

  /** A rejected parameter adds an error. */
  lemma RejectStep(json: Json, exchanges: set<ExchangeId>, names: map<Text, MarketId>, ps: seq<MarketParam>, p: MarketParam,
                   t: Transformed, error: ParamError)
    requires Describes(json, exchanges, names, ps, t) && Judge(json, exchanges, names, p) == Some(error)
    ensures Describes(json, exchanges, names, ps + [p], t.(errors := t.errors[p.id := error]))
  {
    hide HoldsAccepted, HoldsRejected, Judge;
    RejectedStep(json, exchanges, names, ps, p, t.errors);
    AcceptedSkip(json, exchanges, names, ps, p, t, t.errors[p.id := error]);
  }

  /** An accepted parameter with a new id adds its configurations. */
  lemma AcceptStep(json: Json, exchanges: set<ExchangeId>, names: map<Text, MarketId>, ps: seq<MarketParam>, p: MarketParam,
                   t: Transformed, configs: map<ExchangeId, ExchangeConfig>)
    requires Describes(json, exchanges, names, ps, t) && Judge(json, exchanges, names, p).None? && p.id !in t.markets
    requires configs.Keys == exchanges == t.exchanges.Keys
    requires forall e | e in exchanges :: configs[e] == With(t.exchanges[e], p.id, Asked(json, exchanges, names, p, e))
    ensures Describes(json, exchanges, names, ps + [p], Transformed(configs, t.markets[p.id := CommonOf(p)], t.errors))
  {
    hide HoldsAccepted, HoldsRejected, Judge, With, Asked;
    RejectedStep(json, exchanges, names, ps, p, t.errors);
    AcceptedStep(json, exchanges, names, ps, p, t, configs);
  }

  ghost predicate NoClashBefore(json: Json, exchanges: set<ExchangeId>, names: map<Text, MarketId>, ps: seq<MarketParam>, n: nat) {
    forall i, j :: 0 <= i < j < n ==> !Clashes(json, exchanges, names, ps, i, j)
  }

  /** The parameter at `n` clashes exactly when its fields are valid and its id was accepted before. */
  lemma ClashStep(json: Json, exchanges: set<ExchangeId>, names: map<Text, MarketId>, ps: seq<MarketParam>, n: nat, t: Transformed)
    requires n < |ps| && Describes(json, exchanges, names, ps[..n], t) && NoClashBefore(json, exchanges, names, ps, n)
    ensures NoClashBefore(json, exchanges, names, ps, n + 1) <==> !(ValidParam(json, ps[n]) && ps[n].id in t.markets)
    ensures ValidParam(json, ps[n]) && ps[n].id in t.markets ==> Clash(json, exchanges, names, ps)
  {
    hide Judge, Asked, CommonOf, ValidParam;
    if ValidParam(json, ps[n]) && ps[n].id in t.markets {
      var q :| q in ps[..n] && q.id == ps[n].id && Judge(json, exchanges, names, q).None?;
      var i :| 0 <= i < n && ps[i] == q;
      assert Clashes(json, exchanges, names, ps, i, n);
    } else {
      forall i: nat, j: nat | i < j < n + 1 ensures !Clashes(json, exchanges, names, ps, i, j) {
        assert ps[i] in ps[..n];
      }
    }
  }

  /**
   `ValidateAndTransformParams`. It fails as a whole exactly for a missing list or a clash of ids;
   otherwise the result describes the parameters.
   */
  method ValidateAndTransformParams(json: Json, exchanges: set<ExchangeId>, marketParams: Option<seq<MarketParam>>)
    returns (r: Option<Transformed>)
    ensures r.None? <==> marketParams.None?
                         || Clash(json, exchanges, NameToId(marketParams.value), marketParams.value)
    ensures r.Some? ==> Describes(json, exchanges, NameToId(marketParams.value), marketParams.value, r.value)
  {
    hide Describes, Clash, NoClashBefore, Judge, NameToId;
    if marketParams.None? { return None; }
    var ps := marketParams.value;
    var names := IndexByName(ps);
    var t := Transformed(map e | e in exchanges :: ExchangeConfig(e, map[]), map[], map[]);
    StartDescribes(json, exchanges, names, ps, t);
    for i := 0 to |ps|
      invariant Describes(json, exchanges, names, ps[..i], t)
      invariant NoClashBefore(json, exchanges, names, ps, i)
    {
      ClashStep(json, exchanges, names, ps, i, t);
      assert ps[..i + 1] == ps[..i] + [ps[i]];
      var next := TransformParam(json, exchanges, names, ps[..i], ps[i], t);
      if next.None? { return None; }
      t := next.value;
    }
    assert ps[..|ps|] == ps;
    NoClash(json, exchanges, names, ps);
    return Some(t);
  }

  lemma StartDescribes(json: Json, exchanges: set<ExchangeId>, names: map<Text, MarketId>, ps: seq<MarketParam>, t: Transformed)
    requires t == Transformed(map e | e in exchanges :: ExchangeConfig(e, map[]), map[], map[])
    ensures Describes(json, exchanges, names, ps[..0], t) && NoClashBefore(json, exchanges, names, ps, 0)
  {
  }

  lemma NoClash(json: Json, exchanges: set<ExchangeId>, names: map<Text, MarketId>, ps: seq<MarketParam>)
    requires NoClashBefore(json, exchanges, names, ps, |ps|)
    ensures !Clash(json, exchanges, names, ps)
  {
  }

  /** One iteration: no result stands for an id that was already accepted. */
  method TransformParam(json: Json, exchanges: set<ExchangeId>, names: map<Text, MarketId>,
                        ghost done: seq<MarketParam>, p: MarketParam, t: Transformed)
    returns (next: Option<Transformed>)
    requires Describes(json, exchanges, names, done, t)
    ensures next.None? <==> ValidParam(json, p) && p.id in t.markets
    ensures next.Some? ==> Describes(json, exchanges, names, done + [p], next.value)
  {
    hide Describes, Added, Asked, With;
    if !ValidParam(json, p) {
      RejectStep(json, exchanges, names, done, p, t, InvalidParam);
      return Some(t.(errors := t.errors[p.id := InvalidParam]));
    }
    if p.id in t.markets { return None; }
    var parsed := json.exchanges(p.exchangeConfigJson);
    if parsed.None? {
      RejectStep(json, exchanges, names, done, p, t, InvalidJson);
      return Some(t.(errors := t.errors[p.id := InvalidJson]));
    }
    var ok := ValidateEntries(parsed.value, exchanges, names);
    if !ok {
      RejectStep(json, exchanges, names, done, p, t, InvalidExchanges);
      return Some(t.(errors := t.errors[p.id := InvalidExchanges]));
    }
    assert t.exchanges.Keys == exchanges by { DescribesKeys(json, exchanges, names, done, t); }
    var configs := AddEntries(t.exchanges, parsed.value, names, p.id);
    AddedAsked(json, exchanges, names, p, t, configs);
    AcceptStep(json, exchanges, names, done, p, t, configs);
    return Some(Transformed(configs, t.markets[p.id := CommonOf(p)], t.errors));
  }

  lemma AddedAsked(json: Json, exchanges: set<ExchangeId>, names: map<Text, MarketId>, p: MarketParam, t: Transformed,
                   configs: map<ExchangeId, ExchangeConfig>)
    requires Judge(json, exchanges, names, p).None? && t.exchanges.Keys == exchanges
    requires Resolved(json.exchanges(p.exchangeConfigJson).value, names)
    requires Added(t.exchanges, configs, json.exchanges(p.exchangeConfigJson).value, names, p.id)
    ensures configs.Keys == exchanges
    ensures forall e | e in exchanges :: configs[e] == With(t.exchanges[e], p.id, Asked(json, exchanges, names, p, e))
  {
  }

  lemma DescribesKeys(json: Json, exchanges: set<ExchangeId>, names: map<Text, MarketId>, ps: seq<MarketParam>, t: Transformed)
    requires Describes(json, exchanges, names, ps, t)
    ensures t.exchanges.Keys == exchanges
  {
  }

  // ---------------------------------------------------------------- what follows

  /** The ids of the accepted and of the rejected parameters are together those of the input. */
  lemma TransformSound(json: Json, exchanges: set<ExchangeId>, names: map<Text, MarketId>, ps: seq<MarketParam>, t: Transformed)
    requires Describes(json, exchanges, names, ps, t)
    ensures t.markets.Keys + t.errors.Keys == set p | p in ps :: p.id
    ensures (forall p, q | p in ps && q in ps && p.id == q.id :: p == q) ==> t.markets.Keys !! t.errors.Keys
    ensures t.exchanges.Keys == exchanges
    ensures forall e | e in exchanges :: t.exchanges[e].markets.Keys <= t.markets.Keys
  {
    hide Judge, Asked, CommonOf;
    forall p | p in ps ensures p.id in t.markets || p.id in t.errors {
      assert Judge(json, exchanges, names, p).None? || Judge(json, exchanges, names, p).Some?;
    }
  }

  /** An accepted parameter asks for this configuration of its market on an exchange. */
  ghost predicate Asks(json: Json, exchanges: set<ExchangeId>, names: map<Text, MarketId>, ps: seq<MarketParam>,
                       e: ExchangeId, m: MarketId, c: MarketConfig) {
    exists p :: p in ps && p.id == m && Asked(json, exchanges, names, p, e) == Some(c)
  }

  /** Some parameter with this id is accepted. */
  ghost predicate Accepts(json: Json, exchanges: set<ExchangeId>, names: map<Text, MarketId>, ps: seq<MarketParam>, m: MarketId) {
    exists p :: p in ps && p.id == m && Judge(json, exchanges, names, p).None?
  }

  predicate Has(config: ExchangeConfig, m: MarketId, c: MarketConfig) {
    m in config.markets && config.markets[m] == c
  }

  /** An exchange has a market exactly when an accepted parameter lists the exchange, with the configuration it lists last. */
  lemma ExchangeHas(json: Json, exchanges: set<ExchangeId>, names: map<Text, MarketId>, ps: seq<MarketParam>, t: Transformed,
                    e: ExchangeId, m: MarketId, c: MarketConfig)
    requires Describes(json, exchanges, names, ps, t) && e in exchanges
    ensures Has(t.exchanges[e], m, c) <==> Asks(json, exchanges, names, ps, e, m, c)
  {
    hide Judge, Wanted, CommonOf;
    if m in t.exchanges[e].markets {
      assert m in t.markets;
      var p :| p in ps && p.id == m && Judge(json, exchanges, names, p).None?;
    }
  }

  lemma MarketsAccepted(json: Json, exchanges: set<ExchangeId>, names: map<Text, MarketId>, ps: seq<MarketParam>, t: Transformed, m: MarketId)
    requires Describes(json, exchanges, names, ps, t)
    ensures m in t.markets <==> Accepts(json, exchanges, names, ps, m)
  {
    hide Judge, Asked, CommonOf;
  }
}
