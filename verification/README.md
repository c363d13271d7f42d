# A model of the layer daemons

The daemons fetch prices from exchanges and other sources, merge them in caches, convert and encode
them, and broadcast reports. This project models the parts of them that carry state or arithmetic and
proves what they promise, for all inputs and all runs.

- **Wire codec** (`Bits`, `Varint`, `Wire`, `WireProperties`, `MessageProperties`, `WireWriter`,
  `TokenBridgeMessage`, `PricefeedMessages`, `PricefeedCodec`, `WireFormat`): the generated Protocol Buffers code, as
  the sections "Base 128 Varints" and "Message Structure" of the Protocol Buffers Encoding guide
  describe the format. Buffers are filled from the end, parsers work on 64-bit words that wrap around.
- **Price caches and their flush** (`Times`, `PriceStamps`, `Median`, `Sorting`, `ServerPriceCache`,
  `ClientPriceCache`, `PriceFlush`, `FlushRefinement`, `ZeroPrices`): the daemon's cache by exchange, the
  server's by market, the request that carries one to the other while both change, and how a price of
  zero blocks it.
- **Market configuration** (`MarketParams`, `MarketTransform`, `MarketRing`, `ExchangeSubscribers`,
  `ListedMarkets`, `ConfigRegistry`, `ConfigStaleness`): validation of market parameters, the registry, its broadcasts to
  the encoder and the fetcher of each exchange, what the encoders know over runs of updates, and the ring of
  markets a fetcher queries.
- **Custom queries** (`CacheKey`, `ResponseCache`, `Numerals`, `AbiTypeName`, `AbiNumber`,
  `QueryMedian`, `ResultCollection`): the response cache with concurrent callers, the collection of
  endpoint results through a channel, their median, and its encoding as the Solidity Contract ABI
  Specification, section "Formal Specification of the Encoding", defines numbers.
- **Price conversion** (`PriceMath`, `PriceConversion`): products and quotients of prices in units of
  powers of ten, with the rounding of the decimal library.
- **Monitors and guards** (`DepositQueues`, `DepositMonitor`, `TippedDeposits`, `EndpointFallback`,
  `PriceGuard`, `GuardInterleavings`, `HealthChecker`): bridge deposits and tips, endpoint fallback, the
  guard against price jumps, and health-check streaks.

Conventions: a Go string is the sequence of its bytes; a time is an integer and the zero time is 0;
floating-point numbers are rationals; map iteration visits the keys in an arbitrary order; goroutines are
atomic steps between lock regions or channel operations; what the network answers is a parameter. Where
the code's comments and the code differ the code is followed: `cacheKey` says that it identifies a request
uniquely, and `CacheKey.KeyIdentifies` says when it does.

Results where the code does less than one might expect, with the exact condition:

- A cache key belongs to one request only exactly if the request has no headers and no newline in its method,
  URL and body (`CacheKey.KeyIdentifies`, with the collisions `CacheKey.NewlineCollides` and
  `CacheKey.HeaderCollides`).
- The deposit daemon crashes exactly at a tick at which the oldest tip is a bridge query and the attempts to read
  the latest deposit end without a connection (`DepositMonitor.CrashWithoutConnections`; such a tick:
  `DepositMonitor.SilentTickCrashes`).
- An update of the markets panics exactly when, on an exchange whose configuration changes, an accepted market is
  to be adjusted by one that is not accepted (`ConfigRegistry.PanicsExactly`; such an update:
  `ConfigRegistry.RejectedAdjustmentPanics`).
- An encoder knows the markets as they were when the configuration of its exchange last changed, so it is up to
  date exactly if those it refers to have not changed since (`ConfigStaleness.EncoderKnows`,
  `ConfigStaleness.FreshExactly`); a change of exponents or minimum numbers of exchanges alone does not reach it
  (`ConfigStaleness.CommonChangeIsMissed`).
- A flush succeeds exactly when the cache has a price, none of its prices is zero, and the call is answered
  (`FlushRefinement.RunPriceUpdaterTaskLoop`). Encoders store a product of less than one unit as zero, and as long
  as it stays no flush succeeds (`ZeroPrices.SmallProductBlocks`, `FlushRefinement.ZeroBlocksFlushes`).
- A task loop of a fetcher crashes exactly if it queries markets one by one, had some when it counted them, and
  has none when it takes them (`ExchangeSubscribers.PriceFetcher.GetTaskLoopDefinition`).
- The two encoders of prices agree exactly on prices whose 18th decimal is not rounded up
  (`AbiNumber.EncodersAgree`), and `EncodePrice` crashes for exponents from -18 down.

## Model

| member | source | states |
|---|---|---|
| Varint.EncodeVarint | server/types/daemons/token_bridge.pb.go:296-306 | Writes the varint of a number right before an offset, seven bits a byte, and changes nothing else in the buffer. |
| Varint.SovIsLength | server/types/daemons/token_bridge.pb.go:333-335 | The bit-length formula gives the number of bytes of the varint, for every 64-bit number. |
| Varint.VarintRoundTrip | server/types/daemons/token_bridge.pb.go:296-306 | A varint in front of any bytes reads back as the number and its length. |
| Varint.DecodeVarint | server/types/daemons/token_bridge.pb.go:393-417 | The hand-unrolled loop, with shifts that leave the word and an index that never leaves the input, reads what the Base 128 definition says, truncated to the word. |
| Wire.Skip | server/types/daemons/token_bridge.pb.go:507-584 | The skipper equals a recursive definition over tokens; it ends on every input, stays inside it and advances each time although indices wrap around. |
| WireProperties.SkipField | server/types/daemons/token_bridge.pb.go:507-584 | A well-formed unknown field, groups included, is skipped as a whole at any nesting depth. |
| WireProperties.SkipAcceptsGrammar | server/types/daemons/token_bridge.pb.go:507-584 | What the skipper accepts are exactly the fields of the grammar, with balanced groups. |
| Wire.DecodeTag | server/types/daemons/token_bridge.pb.go:395-423 | Reading a tag: the varint, the two kinds of illegal tag, and the field number cut to 32 bits. |
| Wire.DecodeLength | server/types/daemons/token_bridge.pb.go:428-456 | Reading a length-delimited payload: negative lengths, overflow and the end of the input are errors. |
| Wire.SkipUnknown | server/types/daemons/token_bridge.pb.go:487-500 | An unknown field is skipped only if it ends inside the input. |
| MessageProperties.ParseConcat | server/types/daemons/token_bridge.pb.go:389-506 | Parsing a concatenation is parsing the first part and then the rest into the result. |
| MessageProperties.InsertUnknown | server/types/daemons/token_bridge.pb.go:487-500 | A well-formed unknown field between two parts of a message leaves the parsed message unchanged. |
| WireFormat.WrongWireTypeRefused | server/types/daemons/token_bridge.pb.go:418-422 | A known field with another wire type than its own is refused. |
| WireFormat.IllegalTagsRefused | server/types/daemons/token_bridge.pb.go:409-416 | A tag with wire type 4 is refused, and so is one whose field number, cut to 32 bits, is not positive. |
| WireFormat.LengthsRefused | server/types/daemons/token_bridge.pb.go:428-453 | A negative payload length is refused, and so is one beyond the end of the input. |
| TokenBridgeMessage.GetPendingDepositReportResponse.Size | server/types/daemons/token_bridge.pb.go:316-331 | The size is the number of bytes the message is encoded in. |
| TokenBridgeMessage.GetPendingDepositReportResponse.MarshalToSizedBuffer | server/types/daemons/token_bridge.pb.go:274-294 | Fills the last bytes of the buffer with the encoding, exactly as many as the size, and leaves the bytes before. |
| TokenBridgeMessage.GetPendingDepositReportResponse.Marshal | server/types/daemons/token_bridge.pb.go:259-267 | Returns the encoding of the message. |
| TokenBridgeMessage.GetPendingDepositReportResponse.Unmarshal | server/types/daemons/token_bridge.pb.go:389-506 | On every input the loop gives the message or the error of the recursive parser. |
| TokenBridgeMessage.RoundTrip | server/types/daemons/token_bridge.pb.go:259-506 | Parsing the encoding of a message into an empty one yields the message. |
| TokenBridgeMessage.MarshalThenUnmarshal | server/types/daemons/token_bridge.pb.go:259-506 | The two methods one after the other copy the message, without an error. |
| TokenBridgeMessage.UnknownFieldIgnored | server/types/daemons/token_bridge.pb.go:487-500 | Inserting a field the message does not know changes nothing in what is parsed. |
| WireFormat.ReportLayout | server/types/daemons/token_bridge.pb.go:274-294 | The encoding byte by byte: the query data under tag 0x0A, then the value under tag 0x12, each with its length and only if it is not empty. |
| WireFormat.LastQueryDataCounts | server/types/daemons/token_bridge.pb.go:419-452 | Of two occurrences of the query data the second counts. |
| WireFormat.LastValueCounts | server/types/daemons/token_bridge.pb.go:453-486 | Of two occurrences of the value the second counts. |
| PricefeedCodec.PriceSize | server/types/daemons/pricefeed.pb.go:537-555 | The size of an exchange price, with the time at its own size. |
| PricefeedCodec.UpdateSize | server/types/daemons/pricefeed.pb.go:557-573 | The size of a market update and its list of prices. |
| PricefeedCodec.RequestSize | server/types/daemons/pricefeed.pb.go:513-526 | The size of a request and its list of updates. |
| PricefeedCodec.MarshalPrice | server/types/daemons/pricefeed.pb.go:430-458 | Writes an exchange price before an offset, and fails exactly when its time cannot be encoded. |
| PricefeedCodec.MarshalUpdate | server/types/daemons/pricefeed.pb.go:475-500 | Writes a market update before an offset, its prices from the last to the first. |
| PricefeedCodec.MarshalRequest | server/types/daemons/pricefeed.pb.go:370-390 | Writes the updates from the last to the first, each with its length. |
| PricefeedCodec.Marshal | server/types/daemons/pricefeed.pb.go:355-363 | Returns the encoding, or an error exactly when some time cannot be encoded. |
| PricefeedCodec.UnmarshalPrice | server/types/daemons/pricefeed.pb.go:715-851 | The parser of an exchange price equals the recursive one on every input. |
| PricefeedCodec.UnmarshalUpdate | server/types/daemons/pricefeed.pb.go:852-954 | The parser of a market update, with nested prices, equals the recursive one. |
| PricefeedCodec.UnmarshalRequest | server/types/daemons/pricefeed.pb.go:581-664 | The parser of a request, with nested updates, equals the recursive one. |
| PricefeedMessages.RoundTrip | server/types/daemons/pricefeed.pb.go:355-954 | Every encodable request of nested updates and prices is parsed back, if the time codec reads back what it writes. |
| PricefeedCodec.SendAndReceive | server/types/daemons/pricefeed.pb.go:355-664 | Marshalling and unmarshalling yields the request itself. |
| WireFormat.PriceLayout | server/types/daemons/pricefeed.pb.go:430-458 | An exchange price byte by byte: exchange, price and time under tags 0x0A, 0x10 and 0x1A. |
| WireFormat.UpdateLayout | server/types/daemons/pricefeed.pb.go:475-500 | A market update: the market under tag 0x08 and its prices in order, each under tag 0x12. |
| WireFormat.RequestLayout | server/types/daemons/pricefeed.pb.go:370-390 | A request: its updates in order, each under tag 0x0A. |
| WireFormat.MarketIdCut | server/types/daemons/pricefeed.pb.go:881-899 | A market id beyond 32 bits is cut to them. |
| Median.Median | lib/math.go:12-47 | The median of machine integers, without overflow at any step; an error exactly for an empty input. |
| Median.Average | lib/math.go:26-46 | The average of the two middle values is rounded away from zero. |
| Median.MedianIsMiddle | lib/math.go:12-47 | For any ascending arrangement of the input the median is the middle value of an odd number of them, and of an even number half the sum of the two middle ones, rounded away from zero. |
| Median.MedianIgnoresOrder | lib/math.go:18-24 | The order of the input does not matter. |
| Median.MedianSplits | lib/math.go:12-47 | At least half of the values are at most the median, and at least half at least. |
| PriceStamps.PriceTimestamp.UpdatePrice | pricefeed/types/price_timestamp.go:20-29 | A price is replaced exactly by one with a later time. |
| PriceStamps.PriceTimestamp.GetValidPrice | pricefeed/types/price_timestamp.go:33-38 | A price is valid exactly from the cutoff time on. |
| PriceStamps.FoldIsFirstLatest | pricefeed/types/price_timestamp.go:20-29 | After any list of updates an entry is the first one that carries the latest time. |
| PriceStamps.FoldIdempotent | pricefeed/types/price_timestamp.go:20-29 | The same updates again change nothing. |
| PriceStamps.FoldOrderIndependent | pricefeed/types/price_timestamp.go:20-29 | Updates with distinct times may arrive in any order. |
| PriceStamps.IndexPriceOfOrder | server/types/pricefeed/exchange_to_price.go:81-120 | Whatever order a map of prices is visited in, the median and the count are those of its fresh prices. |
| PriceStamps.FreshIs | server/types/pricefeed/exchange_to_price.go:81-120 | The fresh entries are those of the cutoff time or later. |
| PriceStamps.IndexPriceIs | server/types/pricefeed/exchange_to_price.go:81-120 | The index price is the middle of any ascending arrangement of the prices of the cutoff time or later, or half the sum of the two middle ones. |
| ServerPriceCache.UpdateExchangePrices | server/types/pricefeed/exchange_to_price.go:35-61 | The loop applies the updates of one market in order, creating missing entries. |
| ServerPriceCache.GetValidPricesAndLatestUpdate | server/types/pricefeed/exchange_to_price.go:81-120 | The prices collected have the index price as their median, number the fresh entries, and come with the latest time among them. |
| ServerPriceCache.LastWriterWins | server/types/pricefeed/market_to_exchange_prices.go:48-62 | After any updates each cell holds the last writer among what it held and what was sent to it. |
| ServerPriceCache.SentHas | server/types/pricefeed/market_to_exchange_prices.go:48-62 | What is sent to a cell are the price and time of the prices for its exchange in updates for its market. |
| ServerPriceCache.UpdateTwice | server/types/pricefeed/market_to_exchange_prices.go:44-62 | A request applied twice has the effect of one. |
| ServerPriceCache.RequestOrderIrrelevant | server/types/pricefeed/market_to_exchange_prices.go:44-62 | Requests with the same stamps in another order have the same effect, if times are distinct. |
| ServerPriceCache.MarketToExchangePrices.UpdatePrices | server/types/pricefeed/market_to_exchange_prices.go:48-62 | The cache after the loop, market by market. |
| ServerPriceCache.MarketToExchangePrices.GetValidPriceAggregates | server/types/pricefeed/market_to_exchange_prices.go:67-101 | One aggregate, in order, for exactly the markets asked for that have a fresh price; each is the median, count and latest time of the fresh prices. |
| ServerPriceCache.AggregateIs | server/types/pricefeed/market_to_exchange_prices.go:67-101 | An aggregate has the middle of the prices of the cutoff time or later, their number, and their latest time. |
| ServerPriceCache.WithFreshPriceInOrder | server/types/pricefeed/market_to_exchange_prices.go:67-101 | There is one for exactly the asked markets with a price of the cutoff time or later, in the order asked. |
| ServerPriceCache.MarketToExchangePrices.GetValidMedianPrices | server/types/pricefeed/market_to_exchange_prices.go:103-176 | A market has a price exactly when its non-empty set of fresh prices reaches the minimum number of exchanges, and it is their median. |
| ServerPriceCache.ValidRequests | server/pricefeed.go:97-144 | A request is valid exactly when it has updates and every price in it is not zero and has a time. |
| ServerPriceCache.FirstErrorIs | server/pricefeed.go:97-144 | The error of a request is that of its first unsound price: a zero price, else a missing time. |
| ServerPriceCache.MarketToExchangePrices.UpdateMarketPrices | server/pricefeed.go:37-71 | A request is applied as a whole or, with the first error in it, not at all. |
| ClientPriceCache.NewExchangeToMarketPrices | pricefeed/client/types/exchange_to_market_prices.go:44-64 | A cache needs distinct exchanges, at least one, and starts without prices. |
| ClientPriceCache.ExchangeToMarketPrices.UpdatePrice | pricefeed/client/types/exchange_to_market_prices.go:73-86 | Updates one entry of a known exchange, and no other. |
| ClientPriceCache.GetMarketPrices | pricefeed/client/types/market_to_price.go:55-70 | Lists every entry of an exchange once. |
| ClientPriceCache.ExchangeToMarketPrices.GetAllPrices | pricefeed/client/types/exchange_to_market_prices.go:89-109 | Lists the entries of every exchange. |
| ClientPriceCache.ExchangeToMarketPrices.GetIndexPrice | pricefeed/client/types/exchange_to_market_prices.go:113-137 | The median of the fresh prices of a market over all exchanges and their number, or zero and zero. |
| PriceFlush.TransformPriceUpdates | pricefeed/client/subtask_runner.go:270-318 | The request carries, for every market and exchange, exactly the stamps of the lists; each market occurs once and only with prices. |
| PriceFlush.ListedOnce | pricefeed/client/types/market_to_price.go:59-67 | A listed entry occurs exactly once in the request. |
| FlushRefinement.FlushRefines | pricefeed/client/subtask_runner.go:215-266 | In every run, with late and repeated handling of requests, when a flush succeeds the server agrees with the snapshot on every market and exchange, so for any cutoff both give the same median and count. |
| FlushRefinement.ServerNeverAhead | pricefeed/client/subtask_runner.go:215-266 | At every moment of every run each server entry is missing, equal to or older than the client's. |
| FlushRefinement.HandleCell | server/types/pricefeed/market_to_exchange_prices.go:48-62 | What a late request does to an entry: it never moves it back or past the client. |
| FlushRefinement.RunPriceUpdaterTaskLoop | pricefeed/client/subtask_runner.go:215-266 | Without interference a flush succeeds exactly when there are prices, none is zero, and the call is answered; once a sendable request arrived both caches agree, otherwise the server is unchanged. |
| FlushRefinement.ZeroBlocksFlushes | pricefeed/client/subtask_runner.go:215-266 | In every run, as long as one exchange holds a price of zero for one market, no flush that begins then succeeds, for any market. |
| PriceConversion.UpdatePrice | pricefeed/client/price_encoder/price_encoder.go:223-270 | Whatever price the conversion gives is stored for the encoder's exchange, and nothing else changes; without one nothing does. |
| ZeroPrices.SendableAfterStoring | pricefeed/client/types/exchange_to_market_prices.go:73-86 | After a price is stored the cache can be sent exactly if what its entry holds then and all other prices are not zero. |
| ZeroPrices.SmallProductBlocks | pricefeed/client/price_encoder/price_encoder.go:126-270 | A fetched price whose product with the index price is less than one unit, and later than the entry, is stored as zero, and the cache cannot be sent then. |
| ZeroPrices.StoreAndFlush | pricefeed/client/price_encoder/price_encoder.go:223-270 | Encoding a price and then flushing: a later zero price makes the flush fail and leaves the server as it is. |
| MarketParams.ValidateUpdate | pricefeed/client/types/mutable_exchange_market_config.go:35-62 | An update is valid exactly when every market on the exchange is known and valid and every adjust-by market is known. |
| MarketTransform.ValidateEntries | pricefeed/client/types/exchange_config_json.go:21-36 | Entries are valid exactly when there is one and each names a known exchange, a ticker and a known adjust-by market. |
| MarketTransform.ValidateAndTransformParams | pricefeed/client/types/price_feed_mutable_market_configs.go:187-303 | Fails exactly for a missing list, or an accepted parameter followed by one with its id and valid fields; otherwise the result describes the parameters, which the next rows spell out field by field, with an error for each rejected one. |
| MarketTransform.TransformSound | pricefeed/client/types/price_feed_mutable_market_configs.go:187-303 | Accepted and rejected ids are together those of the input, disjoint for distinct parameters; every exchange keeps an entry, which mentions accepted markets only. |
| MarketTransform.ExchangeHas | pricefeed/client/types/price_feed_mutable_market_configs.go:257-291 | An exchange has a configuration for a market exactly when an accepted parameter asks for it, the last entry counting. |
| ListedMarkets.JudgedExactly | pricefeed/client/types/price_feed_mutable_market_configs.go:229-255 | A parameter is accepted exactly if its fields are valid (each limit spelled out), its exchanges can be read, and every entry names a known exchange, a ticker and, if any, a listed pair; otherwise says which error it has. |
| ListedMarkets.StoredFields | pricefeed/client/types/price_feed_mutable_market_configs.go:293-300 | An accepted market is stored with its own id, pair, exponent and minimum number of exchanges. |
| ListedMarkets.StoredEntry | pricefeed/client/types/price_feed_mutable_market_configs.go:257-291 | On an exchange it has the ticker and invert flag of its last entry for it, and as adjust-by market the id of the last parameter with the pair named there, or none. |
| ListedMarkets.NotStored | pricefeed/client/types/price_feed_mutable_market_configs.go:257-291 | It has no configuration on an exchange that it does not list. |
| MarketRing.GetSortedKeys | lib/collections.go:8-18 | The keys of a map, each once, in increasing order. |
| MarketRing.NewRing | pricefeed/client/price_fetcher/price_fetcher.go:116-121 | The ring holds the markets in order and its pointer is back at the first. |
| MarketRing.Take | pricefeed/client/price_fetcher/mutable_state.go:110-116 | The next markets on the ring, and the pointer moved by as many places. |
| MarketRing.Fairness | pricefeed/client/price_fetcher/mutable_state.go:97-125 | After k task loops of n queries every one of N markets was queried kn/N times, rounded down or up. |
| MarketRing.NoRepeat | pricefeed/client/price_fetcher/mutable_state.go:97-125 | A task loop of at most N queries queries no market twice. |
| ExchangeSubscribers.PriceFetcher.UpdateMutableExchangeConfig | pricefeed/client/price_fetcher/price_fetcher.go:96-126 | A valid update replaces configuration, exponents and ring; an invalid one changes nothing. |
| ExchangeSubscribers.PriceFetcher.GetNumQueriesPerTaskLoop | pricefeed/client/price_fetcher/price_fetcher.go:149-157 | One query for a multi-market exchange, otherwise the limit or the number of markets, whichever is less. |
| ExchangeSubscribers.PriceFetcher.GetTaskLoopDefinition | pricefeed/client/price_fetcher/price_fetcher.go:129-157 | The number of queries and the markets are read under two locks, with any configurations arriving in between: it crashes exactly if there were markets at the first and none at the second; otherwise all markets of a multi-market exchange, or the next batch of the ring of that moment. |
| ExchangeSubscribers.PriceFetcher.NextMarkets | pricefeed/client/price_fetcher/mutable_state.go:97-125 | Taking a batch crashes exactly if it is not empty and the ring is; otherwise the ring moves on by as many places. |
| ExchangeSubscribers.PriceEncoder.UpdateMutableExchangeConfig | pricefeed/client/price_encoder/price_encoder.go:91-117 | A valid update of the own exchange replaces the configuration and the known markets; another one changes nothing. |
| ExchangeSubscribers.PriceEncoder.GetPriceConversionDetailsForMarket | pricefeed/client/price_encoder/mutable_state.go:33-76 | Details exist exactly for the markets of the exchange, since every reference of a held configuration resolves; the two other errors cannot occur. |
| ConfigRegistry.Equal | pricefeed/client/types/mutable_exchange_market_config.go:65-84 | Comparing sizes and entries one way decides equality. |
| ConfigRegistry.GetUpdateParameters | pricefeed/client/types/price_feed_mutable_market_configs.go:308-341 | The configurations of the markets and adjust-by markets of an exchange, by id; none exactly if one is missing. |
| ConfigRegistry.UpdateIsValid | pricefeed/client/types/mutable_exchange_market_config.go:35-62 | No subscriber rejects the parameters computed for an exchange. |
| MarketParams.ByIdIsLast | pricefeed/client/types/mutable_exchange_market_config.go:35-62 | A list of market configurations is indexed by id, the last one of each id counting. |
| ConfigRegistry.PairKeepsOrder | pricefeed/client/types/price_feed_mutable_market_configs.go:438-466 | At every moment of the broadcasts the fetcher has received what the encoder has, or all but the last: never first. |
| ConfigRegistry.PricefeedMutableMarketConfigs.UpdateMarkets | pricefeed/client/types/price_feed_mutable_market_configs.go:355-476 | Afterwards, and so after any sequence of calls, both subscribers of every exchange hold the registry's configuration; exactly the changed ones are sent, no subscriber rejects one; says in terms of the parameters when it fails and when it panics, and that nothing changes then. |
| ConfigRegistry.PanicsExactly | pricefeed/client/types/price_feed_mutable_market_configs.go:214-217 | Copying a missing market panics exactly if, on an exchange on which the accepted parameters ask for something else than it has, one of them asks for an adjust-by market that no accepted parameter has. |
| ConfigRegistry.RejectedAdjustmentPanics | pricefeed/client/types/price_feed_mutable_market_configs.go:308-341 | From every state of the registry such an update exists: a valid new market adjusted by one with no minimum number of exchanges, which is rejected. |
| ConfigStaleness.SilentExactly | pricefeed/client/types/price_feed_mutable_market_configs.go:413-422 | Two lists of parameters give the same exchange configurations, so that nothing is sent, exactly if their accepted parameters ask for the same on every exchange. |
| ConfigStaleness.CommonChangeIsSilent | pricefeed/client/types/price_feed_mutable_market_configs.go:413-422 | Parameters that differ in exponents, minimum numbers of exchanges, price changes and query data only, and are valid as before, give the same exchange configurations. |
| ConfigStaleness.EncoderKnows | pricefeed/client/types/price_feed_mutable_market_configs.go:355-476 | After any run of updates an encoder knows the markets it refers to as they were at the last update that changed the configuration of its exchange. |
| ConfigStaleness.FreshExactly | pricefeed/client/types/price_feed_mutable_market_configs.go:355-476 | It knows the registry's present markets exactly if those it refers to are the same as then, which is so after an update that changes its configuration. |
| ConfigStaleness.CommonChangeIsMissed | pricefeed/client/types/price_feed_mutable_market_configs.go:413-422 | After such a change of common parts the encoder of every exchange that lists the market goes on with the old exponent and minimum, while the registry has the new ones. |
| ConfigRegistry.PricefeedMutableMarketConfigs.GetMarketConfigCopies | pricefeed/client/types/price_feed_mutable_market_configs.go:499-518 | The configurations in the order asked, or an error exactly if one is unknown. |
| CacheKey.BuildKey | custom_query/rpc/rpc_reader/cache.go:94-115 | The builder loop gives the key over the header names in order. |
| CacheKey.KeyUnique | custom_query/rpc/rpc_reader/cache.go:103-113 | A request has one key, whatever order its headers are visited in. |
| CacheKey.KeySpelled | custom_query/rpc/rpc_reader/cache.go:91-115 | The key byte by byte: method, URL and body, each with a newline, and a line of name, equals sign and value for each header, in the byte order of the names. |
| CacheKey.KeyIdentifies | custom_query/rpc/rpc_reader/cache.go:91-115 | No other request has the key of a request exactly if that has no headers and no newline in its method, URL and body. |
| CacheKey.KeyInjective | custom_query/rpc/rpc_reader/cache.go:91-115 | Among requests without newlines in their parts and equals signs in header names the key identifies the request. |
| CacheKey.KeyInjectiveForSameHeaders | custom_query/rpc/rpc_reader/cache.go:91-115 | With the same headers, bodies may contain newlines. |
| CacheKey.NewlineCollides | custom_query/rpc/rpc_reader/cache.go:91-101 | Every request with a newline in its method, URL or body shares its key with another one. |
| CacheKey.HeaderCollides | custom_query/rpc/rpc_reader/cache.go:103-113 | So does every request with a header: its header lines can be the end of a body. |
| CacheKey.EqualsCollides | custom_query/rpc/rpc_reader/cache.go:108-113 | Every request whose one header has an equals sign in its name shares its key with one whose header name ends there. |
| ResponseCache.Cache.Get | custom_query/rpc/rpc_reader/cache.go:75-83 | A body is found exactly while it is at most the time to live old. |
| ResponseCache.Cache.FetchJSON | custom_query/rpc/rpc_reader/cache.go:123-151 | Fetches exactly when the cache is off or both lookups miss, and stores exactly a fetched body. |
| ResponseCache.StepKeeps | custom_query/rpc/rpc_reader/cache.go:123-151 | Every step of every caller keeps the invariant: one leader for each flight, the latest fetch stored, fetches spaced, answers justified. |
| ResponseCache.OneFetchAtATime | custom_query/rpc/rpc_reader/cache.go:134-146 | In every interleaving at most one fetch of a key is under way. |
| ResponseCache.FetchesSpaced | custom_query/rpc/rpc_reader/cache.go:134-146 | Completed fetches of one key are more than the time to live apart. |
| ResponseCache.AnswersRecent | custom_query/rpc/rpc_reader/cache.go:123-151 | Every body returned was fetched for that key and was at most the time to live old when its flight or its lookup checked it. |
| ResponseCache.WaitersGetAnswer | custom_query/rpc/rpc_reader/cache.go:134-151 | In every run nobody waits without a flight, and all who wait get the answer of its leader when it finishes, not before. |
| ResponseCache.ErrorsFromFetches | custom_query/rpc/rpc_reader/cache.go:134-151 | A caller gets an error only after a fetch of its key failed. |
| AbiTypeName.SplitSpelled | custom_query/convert_num.go:58-59 | A name matches one of the two patterns exactly if it is spelled from digits in their places, and those are the ones found. |
| AbiTypeName.ParseSpelled | custom_query/convert_num.go:56-110 | Every well-formed name is read as its size, decimals and sign, if the size is a multiple of 8 up to 256. |
| AbiTypeName.TypeIs | custom_query/convert_num.go:56-110 | Such a name is a type exactly if its size is a multiple of 8 from 8 to 256 and its decimals fit. |
| AbiTypeName.OnlySpelledParse | custom_query/convert_num.go:56-110 | No other name is a type. |
| AbiNumber.ValidateRange | custom_query/convert_num.go:135-164 | Decides whether a number fits the type. |
| AbiNumber.IntToHex | custom_query/convert_num.go:167-177 | Pads the bytes of a number at the front. |
| Numerals.HexDigitsAre | custom_query/convert_num.go:167-177 | The sixteen digits, in lower case. |
| AbiNumber.AbiNumberEncoder | custom_query/convert_num.go:14-46 | Encodes what the specification says, or fails. |
| AbiNumber.EncodingDecodes | custom_query/convert_num.go:14-177 | Encoding succeeds exactly when the type is valid and the scaled value, rounded down, fits it; the text has a quarter as many digits as the type has bits and decodes, as big-endian two's complement, to that value. |
| AbiNumber.ScaledIsFloor | custom_query/convert_num.go:113-132 | The scaled value is the greatest integer at or below the value in units of the last decimal. |
| AbiNumber.EncodePrice | lib/prices/utils.go:107-139 | For every number and exponent: printing with 18 + exponent decimals and dropping the point packs the number in such units, rounded to nearest; without decimals there is no point to split at, and it crashes. |
| AbiNumber.UnitsAreNearest | lib/prices/utils.go:107-123 | What is packed is the nearest number of units of the last decimal, with its sign, and the even one of two. |
| AbiNumber.EncodersAgree | lib/prices/utils.go:107-139 | For exponents from -17 to 0 and prices that fit, both encoders give the same text for the price times ten to the exponent exactly if its 18th decimal is not rounded up. |
| AbiNumber.WholePricesAgree | lib/prices/utils.go:107-139 | So they do for every whole price below 2^53. |
| QueryMedian.MedianInHex | custom_query/convert_num.go:179-226 | Refuses empty and non-positive input and too wide a spread, except for one value; otherwise encodes the middle. |
| QueryMedian.MedianHexIgnoresOrder | custom_query/convert_num.go:200-226 | The result depends only on which values there are and how often. |
| QueryMedian.MiddleBetween | custom_query/convert_num.go:211-222 | The middle lies between the least and the greatest value. |
| QueryMedian.MiddleIs | custom_query/convert_num.go:211-222 | For any ascending arrangement of the values the middle is the middle one, or half the sum of the two middle ones. |
| ResultCollection.FetchPrice | custom_query/request.go:62-161 | For every run of sends, receives and stops the two loops give the outcome for all results received in it. |
| ResultCollection.ReceivedFromEndpoints | custom_query/request.go:84-150 | In every reachable state each result is with its endpoint, in the channel or received: what was received is a sub-multiset of one result per endpoint. |
| ResultCollection.EndsDrained | custom_query/request.go:107-150 | When a collection ends nothing waits in the channel. |
| ResultCollection.ReturnedValue | custom_query/request.go:152-181 | A value is returned exactly if enough endpoints succeeded, with positive values whose greatest is within the allowed percentage of the least, and the value in their middle can be encoded; it is that encoding. Too few successes are told apart from values that do not aggregate, and all results received are returned. |
| ResultCollection.CentralIs | custom_query/convert_num.go:211-222 | The value to encode, for any ascending arrangement of the values of the successes. |
| ResultCollection.ValueIgnoresArrivalOrder | custom_query/request.go:170-181 | The value depends only on the multiset of successful values. |
| ResultCollection.AllHeardWithoutStop | custom_query/request.go:107-134 | A run without a deadline or cancellation ends with the result of every endpoint, and its value is that of the results in any other order. |
| PriceMath.MultiplyIsFloor | lib/prices/utils.go:60-67 | The product is the exact one rounded down, whatever the first exponent. |
| PriceMath.MultiplyZero | lib/prices/utils.go:60-67 | The product is zero exactly if the exact one is less than one unit, or after the cut to 64 bits if it is a multiple of 2^64. |
| PriceMath.DivNearest | lib/prices/utils.go:79-97 | A decimal quotient is within half a unit of the 16th decimal of the exact one. |
| PriceMath.DivideBound | lib/prices/utils.go:79-97 | The quotient of two prices is less than 1 plus half of ten to the minus exponent minus 16 below the exact one, and at most that half above. |
| PriceMath.InvertBound | lib/prices/utils.go:36-48 | The same for the inverse of a price. |
| PriceMath.DivideThenMultiply | lib/prices/utils.go:60-97 | Dividing by a price and multiplying by it again recovers the adjusting price within the composed bound. |
| PriceConversion.ConvertPriceUpdate | pricefeed/client/price_encoder/price_encoder.go:126-220 | Which conversion is applied, with the index price of the adjusting market; it fails exactly for an unknown market or too few fresh prices. |
| PriceConversion.ConversionIs | pricefeed/client/price_encoder/price_encoder.go:126-220 | The result in exact numbers: unadjusted the price itself, or its inverse within the bound; adjusted none exactly if fewer exchanges than the minimum have a fresh price, else the floor of price times index, or their quotient within the bound; for the market and time of the update. |
| DepositMonitor.AskIs | token_bridge_feed/client/client.go:637-652 | Asking endpoints in turn gives the first answer, and leaves an error exactly if there is someone to ask and nobody answers. |
| DepositMonitor.Client.QueryCurrentDepositId | token_bridge_feed/client/client.go:368-386 | Three attempts, with a reconnection after each of the first two. |
| DepositMonitor.Client.QueryDepositDetails | token_bridge_feed/client/client.go:629-666 | The details of a deposit, where zero values count as not available; without connections the loop leaves an unset deposit and no error, and exactly then the read of its amount fails. |
| DepositMonitor.Client.CheckForFinality | token_bridge_feed/client/client.go:431-452 | Whether a block is 100 or more below the current one, which stays zero if there is nobody to ask; or an error. |
| DepositMonitor.Client.QueryTokenBridgeContract | token_bridge_feed/client/client.go:364-429 | A tick appends at most one report, for the next deposit if it is known, available and final; otherwise the reports are unchanged. |
| DepositMonitor.RunInOrder | token_bridge_feed/client/client.go:364-429 | Over any run, whatever the endpoints answer, the ids appended are start+1, start+2 and so on without gaps, each at least 100 blocks deep and at most the latest id read then. |
| DepositMonitor.TickReports | token_bridge_feed/client/client.go:364-429 | A tick reports a deposit exactly if it is the next one, at most the id that the first of three attempts with an answer reads, and over the connections of that attempt its details, not zero, and a block 100 or more above are the first answers. |
| DepositMonitor.TickFindsAmount | token_bridge_feed/client/client.go:392-395 | A tick never looks a deposit up without connections. |
| DepositMonitor.ReportIs | token_bridge_feed/client/client.go:411-422 | The report of a deposit has its encoded id as query data and its encoded details as value, or nothing where that fails. |
| DepositMonitor.Client.ProcessPendingTips | token_bridge_feed/client/client.go:196-255 | The oldest tip is kept, dropped, moved to the reports, or the code crashes; says what becomes of both queues. |
| DepositMonitor.FateIs | token_bridge_feed/client/client.go:196-255 | Which of these happens, in terms of the answers: moved exactly if the tip is a TRBBridgeV2 query and the connections answer details that are not zero, can be encoded, and are 100 or more blocks below the block answered, with the tip as query data; dropped exactly if it is no such query; a crash exactly without connections; else kept. |
| DepositMonitor.Client.OnTick | token_bridge_feed/client/client.go:181-191 | A tick handles the deposits and then the oldest tip, over the connections that are left. |
| DepositMonitor.CrashWithoutConnections | token_bridge_feed/client/client.go:181-255 | Over every run of ticks, whatever arrives and is answered, the daemon crashes exactly if at a tick it reaches the oldest tip is a bridge query, nobody answers the first two attempts, and the reconnection before the third finds no endpoint. |
| DepositMonitor.SilentTickCrashes | token_bridge_feed/client/client.go:196-222 | One silent tick with a bridge tip is such a run, from every state with no other tips. |
| DepositMonitor.RoundsInOrder | token_bridge_feed/client/client.go:181-255 | Deposits are reported in order in these runs too. |
| DepositMonitor.ReportsFinal | token_bridge_feed/client/client.go:181-255 | Over every run each new report is of a deposit 100 or more blocks deep, as answered at the tick it was reported or its tip was moved. |
| TippedDeposits.TipMonitor.EnterTips | reporter/client/reporter_monitors.go:397-424 | Exactly the new bridge queries of a list that are neither expired nor committed when their turn comes enter the queue, in order, and are remembered. |
| TippedDeposits.NewTipsOnce | reporter/client/reporter_monitors.go:408-424 | What enters is new, not expired, not committed and of a bridge deposit, with distinct ids, and no such query is missed. |
| TippedDeposits.NewTipsInOrder | reporter/client/reporter_monitors.go:397-424 | What enters are, in the order of the list, the first such query of each new id. |
| TippedDeposits.TipsEnterOnce | token_bridge_feed/client/client.go:196-255 | In every interleaving with the monitor no id enters twice, and the queue is exactly what entered and was neither dropped nor moved; a moved tip keeps its query data. |
| EndpointFallback.EndpointManager.Next | reporter/client/rpc_endpoint_manager.go:127-149 | Selects the first constructible endpoint after the current one in cyclic order, or changes nothing. |
| EndpointFallback.WithRPCFallback | reporter/client/tx_handler.go:761-800 | At most as many calls as endpoints, all but the last failed over, each on the first constructible endpoint after that of the call before, in cyclic order; success is that of the last; it gives up early only if no other endpoint can be constructed. |
| EndpointFallback.WithGRPCFallback | reporter/client/client.go:590-613 | The same, starting with the connection there is. |
| EndpointFallback.EachEndpointOnce | reporter/client/tx_handler.go:781-799 | If all endpoints can be constructed and all calls fail over, each endpoint is called exactly once. |
| PriceGuard.PriceGuard.ShouldSubmit | reporter/client/price_guard.go:50-126 | A price passes exactly if the guard is off, or there is no baseline, or it expired, or it is zero, or the change is within the threshold. |
| PriceGuard.PriceGuard.UpdateLastPrice | reporter/client/price_guard.go:129-146 | Sets the baseline of one query, if the guard is on. |
| PriceGuard.PriceGuard.Check | reporter/client/broadcast_message.go:93-126 | Accepts and moves the baseline of one query, and of no other. |
| PriceGuard.DriftBounded | reporter/client/price_guard.go:96-126 | Between expiries the k-th accepted price is within k changes by the threshold of the first baseline. |
| GuardInterleavings.DriftBoundedInterleaved | reporter/client/broadcast_message.go:93-99 | Also when reports of one query run at the same time, with other checks and updates between the check and the update of each, every accepted price and the baseline are within as many changes by the threshold of the first baseline as prices were accepted. |
| GuardInterleavings.Interleave | reporter/client/broadcast_message.go:93-99 | The guard's two methods, called in any such order, go through the steps of that model. |
| PriceGuard.RefusedExactly | reporter/client/price_guard.go:50-126 | A price is refused exactly if the baseline is recent, positive, and too far away; one offered later than the maximum age is accepted. |
| PriceGuard.BaselineIsLast | reporter/client/broadcast_message.go:93-99 | Over every run, from any baseline or none, the baseline is the price and time of the last guarded offer that was accepted (or refused, with updates on refusal), acceptance written out in numbers. |
| PriceGuard.BaselineStays | reporter/client/broadcast_message.go:93-99 | If there is no such offer the baseline is the first one. |
| PriceGuard.LastOffered | reporter/client/broadcast_message.go:96-99 | With updates on refusal the baseline is the last price offered. |
| HealthChecker.ErrorStreak.UpdateLastError | server/types/health_checker.go:23-30 | A failure keeps the start of the streak, or sets it. |
| HealthChecker.HealthCheckerState.Run | server/types/health_checker.go:176-196 | What a poll does to the streak, when it calls back, and that the next poll is scheduled exactly if the checker is not stopped. |
| HealthChecker.HealthCheckerState.Stop | server/types/health_checker.go:133-144 | Nothing is scheduled from then on. |
| HealthChecker.ReportedExactly | server/types/health_checker.go:176-196 | Over every history of polls the callback runs at a poll exactly when it failed and at least the maximum duration has passed since the first failure after the last success. |
| HealthChecker.StreakIsKnown | server/types/health_checker.go:23-38 | After every history of polls the streak is unset after a success, and otherwise has the time of the first failure since and the latest error. |
| HealthChecker.ZeroTimeForgotten | server/types/health_checker.go:25-27 | A failure at the zero time does not start a streak, so polls are taken to have other times. |

## Left out

- Networking, HTTP, gRPC, CometBFT and Ethereum clients, signing, telemetry and logging: their answers are parameters.
- The contents of a message after a failed `Unmarshal`, and the difference between a nil and an empty slice.
- `StdTime*` helpers: a parameter, of which the round trip assumes only that it reads back what it writes.
- The nested pricefeed messages and the entries of both price caches are values, so aliasing between them is not captured.
- The subscription of fetchers and encoders to the registry: it starts with both present for every exchange.
- `MedianInHex` sorts its slice in place; the model sorts a copy.
- JSON parsing: a parameter that says which texts are objects and which exchanges they configure.
- The ABI packing of query data and report values: parameters.
- Rounding of floating-point numbers, infinities and NaN.
- How `EncodePrice` packs a number that is negative or exceeds 256 bits: the packer is a parameter. More than a million decimals.
- Exponents beyond 32 bits, at which the decimal library panics.
- Deposit ids of 2^63 or more, which the source would turn negative.
- How errors are told apart as final or not (`shouldFallbackRPCError`, `shouldFallbackGRPCError`): each call's outcome is a parameter.
- PriceGuard.PriceGuard.Check: describes one report alone, because the source takes the lock twice; what reports at the same time do is stated over steps in `GuardInterleavings`.
- The calls of an operation when no endpoint list is configured: there is then one call and no fallback.
- `RemoveReport` and `RemoveTip`, which nothing calls, and the removal of the oldest report after a broadcast.
- Gas estimation, the retry queue of transactions and the committed-id map: whether a query is committed is a field of the query.
- Exchange-specific price readers, contract handlers, TOML and environment configuration.
