/** What a list of market parameters says, entry by entry, about the configurations made of it. */
module ListedMarkets {
  import opened MarketParams
  import opened MarketTransform
  import opened Options

  // ---------------------------------------------------------------- names

  /** The parameter at `i` is the last one with its pair. */
  ghost predicate LastOfPair(ps: seq<MarketParam>, i: nat) {
    i < |ps| && forall j :: i < j < |ps| ==> ps[j].pair != ps[i].pair
  }

  /** A pair stands for the id of the last parameter that has it. */
  lemma {:induction false} PairIsLast(ps: seq<MarketParam>, i: nat)
    requires LastOfPair(ps, i)
    ensures ps[i].pair in NameToId(ps) && NameToId(ps)[ps[i].pair] == ps[i].id
    decreases |ps|
  {
    var n := |ps| - 1;
    if i < n { PairIsLast(ps[..n], i); }
  }

  lemma {:induction false} PairsKnown(ps: seq<MarketParam>, pair: Text)
    ensures pair in NameToId(ps) <==> exists p :: p in ps && p.pair == pair
    decreases |ps|
  {
    if ps != [] {
      var n := |ps| - 1;
      PairsKnown(ps[..n], pair);
      assert ps == ps[..n] + [ps[n]];
    }
  }

  // ---------------------------------------------------------------- what is accepted

  /** Its own fields are valid. */
  ghost predicate FieldsValid(json: Json, p: MarketParam) {
    && p.pair != [] && p.minExchanges >= 1 && 1 <= p.minPriceChangePpm <= 9_999
    && json.isObject(p.exchangeConfigJson)
    && p.queryData != [] && |p.queryData| % 2 == 0
    && forall c | c in p.queryData :: c in HEX_DIGITS
  }

  /** `0` to `9`, `A` to `F` and `a` to `f`. */
  const HEX_DIGITS: set<int> :=
    {48, 49, 50, 51, 52, 53, 54, 55, 56, 57, 65, 66, 67, 68, 69, 70, 97, 98, 99, 100, 101, 102}

  /** There is an entry, and each names a known exchange, has a ticker, and is adjusted by a listed pair if by any. */
  ghost predicate EntriesValid(xs: seq<ExchangeMarketJson>, exchanges: set<ExchangeId>, ps: seq<MarketParam>) {
    && xs != []
    && forall x | x in xs ::
         && x.exchangeName != [] && x.exchangeName in exchanges && x.ticker != []
         && (x.adjustByMarket != [] ==> exists q :: q in ps && q.pair == x.adjustByMarket)
  }

  /** When a parameter of a list is accepted, and which error it has otherwise. */
  lemma JudgedExactly(json: Json, exchanges: set<ExchangeId>, ps: seq<MarketParam>, p: MarketParam)
    ensures var verdict, parsed := Judge(json, exchanges, NameToId(ps), p), json.exchanges(p.exchangeConfigJson);
            && (verdict.None? <==> FieldsValid(json, p) && parsed.Some? && EntriesValid(parsed.value, exchanges, ps))
            && (verdict == Some(InvalidParam) <==> !FieldsValid(json, p))
            && (verdict == Some(InvalidJson) <==> FieldsValid(json, p) && parsed.None?)
  {
    hide NameToId;
    forall c ensures IsHexDigit(c) <==> c in HEX_DIGITS {
    }
    forall pair ensures pair in NameToId(ps) <==> exists q :: q in ps && q.pair == pair {
      PairsKnown(ps, pair);
    }
  }

  // ---------------------------------------------------------------- what is stored

  /** An accepted parameter's market is stored with its own id, pair, exponent and minimum number of exchanges. */
  lemma StoredFields(json: Json, exchanges: set<ExchangeId>, ps: seq<MarketParam>, t: Transformed, p: MarketParam)
    requires Describes(json, exchanges, NameToId(ps), ps, t) && p in ps && Judge(json, exchanges, NameToId(ps), p).None?
    ensures p.id in t.markets
    ensures var c := t.markets[p.id];
            c.id == p.id && c.pair == p.pair && c.exponent == p.exponent && c.minExchanges == p.minExchanges
  {
    hide Judge, Asked, NameToId;
  }

  /** The entry at `k` is the last one for its exchange. */
  ghost predicate LastOfExchange(xs: seq<ExchangeMarketJson>, k: nat) {
    k < |xs| && forall j :: k < j < |xs| ==> xs[j].exchangeName != xs[k].exchangeName
  }

  lemma {:induction false} WantedLast(xs: seq<ExchangeMarketJson>, names: map<Text, MarketId>, k: nat)
    requires Resolved(xs, names) && LastOfExchange(xs, k)
    ensures Resolved([xs[k]], names) && Wanted(xs, names, xs[k].exchangeName) == Some(ConfigOf(xs[k], names))
    decreases |xs|
  {
    hide ConfigOf;
    var n := |xs| - 1;
    if k < n { WantedLast(xs[..n], names, k); }
  }

  lemma {:induction false} WantedNowhere(xs: seq<ExchangeMarketJson>, names: map<Text, MarketId>, e: ExchangeId)
    requires Resolved(xs, names) && forall x | x in xs :: x.exchangeName != e
    ensures Wanted(xs, names, e) == None
    decreases |xs|
  {
    if xs != [] { WantedNowhere(xs[..|xs| - 1], names, e); }
  }

  lemma AskedLast(json: Json, exchanges: set<ExchangeId>, names: map<Text, MarketId>, p: MarketParam, k: nat)
    requires Judge(json, exchanges, names, p).None?
    requires json.exchanges(p.exchangeConfigJson).Some? && LastOfExchange(json.exchanges(p.exchangeConfigJson).value, k)
    ensures var x := json.exchanges(p.exchangeConfigJson).value[k];
            && x.exchangeName in exchanges && (x.adjustByMarket != [] ==> x.adjustByMarket in names)
            && Asked(json, exchanges, names, p, x.exchangeName) == Some(ConfigOf(x, names))
  {
    hide Wanted, ConfigOf;
    var xs := json.exchanges(p.exchangeConfigJson).value;
    assert xs[k] in xs;
    WantedLast(xs, names, k);
  }

  lemma AskedIsStored(json: Json, exchanges: set<ExchangeId>, names: map<Text, MarketId>, ps: seq<MarketParam>, t: Transformed,
                      p: MarketParam, e: ExchangeId, c: MarketConfig)
    requires Describes(json, exchanges, names, ps, t) && p in ps && e in exchanges
    requires Asked(json, exchanges, names, p, e) == Some(c)
    ensures e in t.exchanges && Has(t.exchanges[e], p.id, c)
  {
    hide Describes, Asked;
    TransformSound(json, exchanges, names, ps, t);
    assert Asks(json, exchanges, names, ps, e, p.id, c);
    ExchangeHas(json, exchanges, names, ps, t, e, p.id, c);
  }

  /** The parameter at `i`, if any is needed, is the one that an entry is adjusted by. */
  ghost predicate Adjusts(ps: seq<MarketParam>, i: nat, x: ExchangeMarketJson) {
    x.adjustByMarket != [] ==> LastOfPair(ps, i) && ps[i].pair == x.adjustByMarket
  }

  /**
   On an exchange an accepted parameter's market is configured as its last entry for it says: with its ticker and
   invert flag, and adjusted by the market of the last parameter that has the pair it names, or by none.
   */
  lemma StoredEntry(json: Json, exchanges: set<ExchangeId>, ps: seq<MarketParam>, t: Transformed, p: MarketParam, k: nat, i: nat)
    requires Describes(json, exchanges, NameToId(ps), ps, t) && p in ps && Judge(json, exchanges, NameToId(ps), p).None?
    requires json.exchanges(p.exchangeConfigJson).Some? && LastOfExchange(json.exchanges(p.exchangeConfigJson).value, k)
    requires Adjusts(ps, i, json.exchanges(p.exchangeConfigJson).value[k])
    ensures var x := json.exchanges(p.exchangeConfigJson).value[k];
            && x.exchangeName in t.exchanges && p.id in t.exchanges[x.exchangeName].markets
            && var c := t.exchanges[x.exchangeName].markets[p.id];
               && c.ticker == x.ticker && c.invert == x.invert
               && c.adjustByMarket == if x.adjustByMarket == [] then None else Some(ps[i].id)
  {
    hide NameToId, Judge, Asked, Describes, LastOfPair;
    var names, x := NameToId(ps), json.exchanges(p.exchangeConfigJson).value[k];
    AskedLast(json, exchanges, names, p, k);
    AskedIsStored(json, exchanges, names, ps, t, p, x.exchangeName, ConfigOf(x, names));
    if x.adjustByMarket != [] { PairIsLast(ps, i); }
  }

  /** It has no configuration on an exchange that it does not list. */
  lemma NotStored(json: Json, exchanges: set<ExchangeId>, ps: seq<MarketParam>, t: Transformed, p: MarketParam, e: ExchangeId)
    requires Describes(json, exchanges, NameToId(ps), ps, t) && p in ps && Judge(json, exchanges, NameToId(ps), p).None?
    requires e in exchanges && forall x | x in json.exchanges(p.exchangeConfigJson).value :: x.exchangeName != e
    ensures e in t.exchanges && p.id !in t.exchanges[e].markets
  {
    hide NameToId, Wanted, ConfigOf;
    WantedNowhere(json.exchanges(p.exchangeConfigJson).value, NameToId(ps), e);
    assert Asked(json, exchanges, NameToId(ps), p, e) == None;
  }
}
