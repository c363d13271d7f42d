/** Market parameters as they are configured, and the market configurations derived from them. */
module MarketParams {
  import opened Bits
  import opened Options

  type Text = seq<byte>
  type ExchangeId = Text
  type MarketId = uint32

  datatype MarketParam = MarketParam(
    id: MarketId,
    pair: Text,
    exponent: int,
    minExchanges: uint32,
    minPriceChangePpm: uint32,
    exchangeConfigJson: Text,
    queryData: Text
  )

  /** How one market is resolved on one exchange, as written in the configuration. */
  datatype ExchangeMarketJson = ExchangeMarketJson(exchangeName: ExchangeId, ticker: Text, adjustByMarket: Text, invert: bool)

  /** The JSON reader: whether a text is a JSON object, and the exchanges it configures. */
  datatype Json = Json(isObject: Text -> bool, exchanges: Text -> Option<seq<ExchangeMarketJson>>)

  /** `MutableMarketConfig`: what the exchanges of a market have in common. */
  datatype MarketCommon = MarketCommon(id: MarketId, pair: Text, exponent: int, minExchanges: uint32)

  datatype MarketConfig = MarketConfig(ticker: Text, adjustByMarket: Option<MarketId>, invert: bool)

  /** `MutableExchangeMarketConfig`. */
  datatype ExchangeConfig = ExchangeConfig(id: ExchangeId, markets: map<MarketId, MarketConfig>)

  const MAX_PRICE_CHANGE_PPM := 10_000

  predicate IsHexDigit(c: byte) {
    48 <= c <= 57 || 65 <= c <= 70 || 97 <= c <= 102
  }

  predicate IsHex(s: Text) {
    |s| % 2 == 0 && forall c | c in s :: IsHexDigit(c)
  }

  /** `MarketParam.Validate` finds no error. */
  predicate ValidParam(json: Json, p: MarketParam) {
    && p.pair != []
    && p.minExchanges != 0
    && 0 < p.minPriceChangePpm < MAX_PRICE_CHANGE_PPM
    && json.isObject(p.exchangeConfigJson)
    && p.queryData != [] && IsHex(p.queryData)
  }

  /** `ExchangeMarketConfigJson.Validate` finds no error. */
  predicate ValidEntry(x: ExchangeMarketJson, exchanges: set<ExchangeId>, marketNames: set<Text>) {
    && x.exchangeName != [] && x.exchangeName in exchanges
    && x.ticker != []
    && (x.adjustByMarket != [] ==> x.adjustByMarket in marketNames)
  }

  /** The markets that an exchange needs the common configuration of. */
  ghost function MarketsOn(config: ExchangeConfig): set<MarketId> {
    config.markets.Keys
    + set m | m in config.markets && config.markets[m].adjustByMarket.Some? :: config.markets[m].adjustByMarket.value
  }

  lemma MarketsOnHas(config: ExchangeConfig)
    ensures forall m | m in config.markets ::
              && m in MarketsOn(config)
              && (config.markets[m].adjustByMarket.Some? ==> config.markets[m].adjustByMarket.value in MarketsOn(config))
    ensures forall x | x in MarketsOn(config) ::
              x in config.markets || exists m :: m in config.markets && config.markets[m].adjustByMarket == Some(x)
  {
  }

  function ById(configs: seq<MarketCommon>): map<MarketId, MarketCommon> {
    if configs == [] then map[]
    else var last := configs[|configs| - 1]; ById(configs[..|configs| - 1])[last.id := last]
  }

  /** A configuration is known under its id, the last one of each id. */
  lemma {:induction false} ByIdIsLast(configs: seq<MarketCommon>, i: nat)
    requires i < |configs| && forall j :: i < j < |configs| ==> configs[j].id != configs[i].id
    ensures configs[i].id in ById(configs) && ById(configs)[configs[i].id] == configs[i]
    decreases |configs|
  {
    if i < |configs| - 1 { ByIdIsLast(configs[..|configs| - 1], i); }
  }

  lemma {:induction false} ByIdKnows(configs: seq<MarketCommon>, m: MarketId)
    ensures m in ById(configs) <==> exists c :: c in configs && c.id == m
    decreases |configs|
  {
    if configs != [] {
      var n := |configs| - 1;
      ByIdKnows(configs[..n], m);
      assert configs == configs[..n] + [configs[n]];
    }
  }

  predicate ValidCommon(c: MarketCommon) {
    c.pair != [] && c.minExchanges != 0
  }

  /** `MutableExchangeMarketConfig.Validate` finds no error: every market and every adjust-by market is known. */
  ghost predicate ValidUpdate(config: ExchangeConfig, configs: seq<MarketCommon>) {
    var known := ById(configs);
    forall m | m in config.markets ::
      && m in known && ValidCommon(known[m])
      && (config.markets[m].adjustByMarket.Some? ==> config.markets[m].adjustByMarket.value in known)
  }

  method IndexById(configs: seq<MarketCommon>) returns (known: map<MarketId, MarketCommon>)
    ensures known == ById(configs)
  {
    known := map[];
    for i := 0 to |configs|
      invariant known == ById(configs[..i])
    {
      assert configs[..i + 1][..i] == configs[..i];
      known := known[configs[i].id := configs[i]];
    }
    assert configs[..|configs|] == configs;
  }

  method ValidateUpdate(config: ExchangeConfig, configs: seq<MarketCommon>) returns (ok: bool)
    ensures ok <==> ValidUpdate(config, configs)
  {
    var known := IndexById(configs);
    var left := config.markets.Keys;
    while left != {}
      invariant left <= config.markets.Keys
      invariant forall m | m in config.markets && m !in left ::
                  && m in known && ValidCommon(known[m])
                  && (config.markets[m].adjustByMarket.Some? ==> config.markets[m].adjustByMarket.value in known)
    {
      var m :| m in left;
      left := left - {m};
      if m !in known { return false; }
      if !ValidCommon(known[m]) { return false; }
      var adjust := config.markets[m].adjustByMarket;
      if adjust.Some? && adjust.value !in known { return false; }
    }
    return true;
  }
}
