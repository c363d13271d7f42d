/**
 The daemon's cache and the server's over whole runs. Price updates, the copy of each exchange under
 its own lock, and the handling of requests by the server interleave freely; a request whose answer
 was lost may be handled later, after newer ones, or again.
 */
module FlushRefinement {
  import opened ClientPriceCache
  import opened MarketParams
  import opened Options
  import opened PriceFlush
  import opened PricefeedMessages
  import opened PriceStamps
  import opened ServerPriceCache
  import opened Times

  // ---------------------------------------------------------------- snapshots

  function CopyOf(c: ClientCache, market: MarketId, exchange: ExchangeId): Option<Stamp> {
    Cell(Column(c, market), exchange)
  }

  function ServerCell(s: Cache, market: MarketId, exchange: ExchangeId): Option<Stamp> {
    Cell(Row(s, market), exchange)
  }

  function AsList(cell: Option<Stamp>): seq<Stamp> {
    if cell.Some? then [cell.value] else []
  }

  /** The request holds every entry of the snapshot, once, and nothing else. */
  ghost predicate Carries(us: seq<MarketPriceUpdate>, copied: ClientCache) {
    AllTimed(us) && forall m, e :: Sent(us, m, e) == AsList(CopyOf(copied, m, e))
  }

  /** For every market, the server holds what the snapshot holds. */
  ghost predicate Agrees(server: Cache, copied: ClientCache) {
    forall m :: Row(server, m) == Column(copied, m)
  }

  /** An entry is behind another one if it is missing, the same or older. */
  predicate Behind(a: Option<Stamp>, b: Option<Stamp>) {
    a.None? || (b.Some? && (a == b || a.value.time < b.value.time))
  }

  /** An entry is never before the zero time, and after it once it has a price. */
  predicate Proper(cell: Option<Stamp>) {
    cell.Some? ==> cell.value.time >= ZERO_TIME && (cell.value.price != 0 ==> cell.value.time > ZERO_TIME)
  }

  lemma {:induction false} SentPriced(us: seq<MarketPriceUpdate>, market: MarketId, exchange: ExchangeId)
    requires AllTimed(us) && forall u | u in us :: Priced(u.exchangePrices)
    ensures forall v | v in Sent(us, market, exchange) :: v.price != 0
  {
    if us != [] {
      SentPriced(us[1..], market, exchange);
      StampsPriced(us[0].exchangePrices, exchange);
    }
  }

  lemma {:induction false} StampsPriced(ps: seq<ExchangePrice>, exchange: ExchangeId)
    requires Priced(ps)
    ensures Timed(ps) && forall v | v in StampsFor(ps, exchange) :: v.price != 0
  {
    if ps != [] { StampsPriced(ps[1..], exchange); }
  }

  lemma TransposedCarries(us: seq<MarketPriceUpdate>, all: map<ExchangeId, seq<MarketPrice>>, copied: ClientCache)
    requires AllTimed(us) && forall m, e :: Sent(us, m, e) == ListedFor(all, m, e)
    requires all.Keys == copied.Keys && forall e | e in all :: Lists(all[e], copied[e])
    ensures Carries(us, copied)
  {
    hide Sent, Lists;
    forall m, e ensures Sent(us, m, e) == AsList(CopyOf(copied, m, e)) {
      if e in all { ListedOnce(all[e], copied[e], m); }
    }
  }

  lemma CellsAgree(server: Cache, copied: ClientCache)
    requires forall m, e :: ServerCell(server, m, e) == CopyOf(copied, m, e)
    ensures Agrees(server, copied)
  {
    forall m ensures Row(server, m) == Column(copied, m) {
      var a, b := Row(server, m), Column(copied, m);
      forall e ensures (e in a <==> e in b) && (e in a ==> a[e] == b[e]) {
        assert ServerCell(server, m, e) == CopyOf(copied, m, e);
      }
    }
  }

  // ---------------------------------------------------------------- the state machine

  datatype Flush =
    | Idle
    | Copying(copied: ClientCache)
    | Sending(copied: ClientCache, request: Request, handled: bool)

  datatype State = State(client: ClientCache, server: Cache, flush: Flush, pending: set<Request>)

  datatype Event =
    | UpdatePrice(exchange: ExchangeId, price: MarketPrice)
    | BeginFlush
    | CopyExchange(exchange: ExchangeId)
    | Send(request: Request)
    | Handle(request: Request)
    | Finish(success: bool)

  ghost predicate Initial(s: State) {
    && (forall e | e in s.client :: s.client[e] == map[])
    && s.server == map[] && s.flush == Idle && s.pending == {}
  }

  function HandleRequest(server: Cache, request: Request): Cache {
    ValidRequests(request);
    if Validation(request).None? then ApplyMarkets(server, request.marketPriceUpdates) else server
  }

  ghost predicate Step(s: State, event: Event, t: State) {
    match event
    case UpdatePrice(e, p) =>
      e in s.client && t == s.(client := s.client[e := Update(s.client[e], p.marketId, p.stamp)])
    case BeginFlush =>
      s.flush.Idle? && t == s.(flush := Copying(map[]))
    case CopyExchange(e) =>
      && s.flush.Copying? && e in s.client && e !in s.flush.copied
      && t == s.(flush := Copying(s.flush.copied[e := s.client[e]]))
    case Send(request) =>
      && s.flush.Copying? && s.flush.copied.Keys == s.client.Keys
      && request.marketPriceUpdates != [] && Carries(request.marketPriceUpdates, s.flush.copied)
      && t == s.(flush := Sending(s.flush.copied, request, false), pending := s.pending + {request})
    case Handle(request) =>
      && request in s.pending
      && t == s.(server := HandleRequest(s.server, request),
                 flush := if s.flush.Sending? && s.flush.request == request && Validation(request).None?
                          then s.flush.(handled := true) else s.flush)
    case Finish(success) =>
      && (s.flush.Sending? || (s.flush.Copying? && s.flush.copied.Keys == s.client.Keys))
      && (success ==> s.flush.Sending? && s.flush.handled)
      && t == s.(flush := Idle)
  }

  // ---------------------------------------------------------------- the invariant

  /** What the server may hold of an entry at most: the copy, once it is made, else the client's. */
  function Bound(s: State, market: MarketId, exchange: ExchangeId): Option<Stamp> {
    if !s.flush.Idle? && exchange in s.flush.copied then CopyOf(s.flush.copied, market, exchange)
    else CopyOf(s.client, market, exchange)
  }

  /** Every stamp that a pending request carries for an entry is behind its bound, and there is at most one. */
  ghost predicate Outdated(s: State, request: Request, market: MarketId, exchange: ExchangeId)
    requires AllTimed(request.marketPriceUpdates)
  {
    exists v :: Sent(request.marketPriceUpdates, market, exchange) == AsList(v)
                && Behind(v, Bound(s, market, exchange)) && Proper(v)
  }

  ghost predicate PendingOutdated(s: State, request: Request) {
    AllTimed(request.marketPriceUpdates) && forall m, e :: Outdated(s, request, m, e)
  }

  ghost predicate Ordered(s: State) {
    forall m, e ::
      && Behind(ServerCell(s.server, m, e), Bound(s, m, e))
      && Behind(Bound(s, m, e), CopyOf(s.client, m, e))
      && Proper(Bound(s, m, e)) && Proper(CopyOf(s.client, m, e))
  }

  ghost predicate Invariant(s: State) {
    && Ordered(s)
    && (forall r | r in s.pending :: PendingOutdated(s, r))
    && (!s.flush.Idle? ==> s.flush.copied.Keys <= s.client.Keys)
    && (s.flush.Sending? ==>
          && s.flush.copied.Keys == s.client.Keys
          && s.flush.request in s.pending
          && Carries(s.flush.request.marketPriceUpdates, s.flush.copied)
          && (s.flush.handled ==> Agrees(s.server, s.flush.copied) && Validation(s.flush.request).None?))
  }

  /** Requests stay outdated when bounds only move forward. */
  lemma PendingStays(s: State, t: State)
    requires forall m, e :: Behind(Bound(s, m, e), Bound(t, m, e))
    requires forall r | r in s.pending :: PendingOutdated(s, r)
    ensures forall r | r in s.pending :: PendingOutdated(t, r)
  {
    hide Bound;
    forall r | r in s.pending ensures PendingOutdated(t, r) {
      assert PendingOutdated(s, r);
      forall m, e ensures Outdated(t, r, m, e) {
        assert Outdated(s, r, m, e);
        assert Behind(Bound(s, m, e), Bound(t, m, e));
      }
    }
  }

  /** A client entry moves forward and stays proper. */
  lemma UpdateMovesForward(s: State, e: ExchangeId, p: MarketPrice, t: State)
    requires Ordered(s) && Step(s, UpdatePrice(e, p), t)
    ensures forall m, x :: Behind(CopyOf(s.client, m, x), CopyOf(t.client, m, x)) && Proper(CopyOf(t.client, m, x))
  {
    forall m, x ensures Behind(CopyOf(s.client, m, x), CopyOf(t.client, m, x)) && Proper(CopyOf(t.client, m, x)) {
      assert Proper(CopyOf(s.client, m, x));
    }
  }

  lemma UpdateKeeps(s: State, e: ExchangeId, p: MarketPrice, t: State)
    requires Invariant(s) && Step(s, UpdatePrice(e, p), t)
    ensures Invariant(t)
  {
    hide CopyOf, ServerCell, Carries, Agrees, PendingOutdated;
    UpdateMovesForward(s, e, p, t);
    forall m, x ensures
      && Behind(ServerCell(t.server, m, x), Bound(t, m, x))
      && Behind(Bound(t, m, x), CopyOf(t.client, m, x))
      && Proper(Bound(t, m, x)) && Proper(CopyOf(t.client, m, x))
      && Behind(Bound(s, m, x), Bound(t, m, x))
    {
      assert Behind(ServerCell(s.server, m, x), Bound(s, m, x));
      assert Behind(CopyOf(s.client, m, x), CopyOf(t.client, m, x));
    }
    PendingStays(s, t);
  }

  /** Starting, copying and finishing change no bound, or replace it by the client's entry. */
  lemma FlushKeeps(s: State, event: Event, t: State)
    requires Invariant(s) && Step(s, event, t)
    requires event.BeginFlush? || event.CopyExchange? || event.Finish?
    ensures Invariant(t)
  {
    hide ServerCell, Carries, Agrees, PendingOutdated;
    forall m, e ensures
      && Behind(ServerCell(t.server, m, e), Bound(t, m, e))
      && Behind(Bound(t, m, e), CopyOf(t.client, m, e))
      && Proper(Bound(t, m, e)) && Proper(CopyOf(t.client, m, e))
      && Behind(Bound(s, m, e), Bound(t, m, e))
    {
      assert Behind(ServerCell(s.server, m, e), Bound(s, m, e));
      assert Behind(Bound(s, m, e), CopyOf(s.client, m, e));
    }
    PendingStays(s, t);
  }

  lemma SendKeeps(s: State, request: Request, t: State)
    requires Invariant(s) && Step(s, Send(request), t)
    ensures Invariant(t)
  {
    hide ServerCell, Agrees, CopyOf, Sent;
    forall m, e ensures Bound(t, m, e) == Bound(s, m, e) && CopyOf(t.client, m, e) == CopyOf(s.client, m, e) {
    }
    PendingStays(s, t);
    forall m, e ensures Outdated(t, request, m, e) {
      assert Proper(Bound(s, m, e));
      assert Sent(request.marketPriceUpdates, m, e) == AsList(CopyOf(s.flush.copied, m, e));
      OutsideEmpty(s.client, s.flush.copied, m, e);
    }
  }

  lemma OutsideEmpty(client: ClientCache, copied: ClientCache, m: MarketId, e: ExchangeId)
    requires copied.Keys == client.Keys
    ensures e !in copied ==> CopyOf(client, m, e) == None && CopyOf(copied, m, e) == None
  {
  }

  /** What a valid pending request does to one server entry. */
  lemma HandleCell(s: State, request: Request, m: MarketId, e: ExchangeId)
    requires Ordered(s) && PendingOutdated(s, request) && Validation(request).None?
    ensures var after := ServerCell(HandleRequest(s.server, request), m, e);
            && Behind(after, Bound(s, m, e))
            && (ServerCell(s.server, m, e) == Bound(s, m, e) ==> after == Bound(s, m, e))
            && (Sent(request.marketPriceUpdates, m, e) == AsList(Bound(s, m, e)) ==> after == Bound(s, m, e))
  {
    hide ApplyMarkets, Sent, Bound, CopyOf, FirstUpdateError;
    var us := request.marketPriceUpdates;
    ValidRequests(request);
    LastWriterWins(s.server, us, m, e);
    SentPriced(us, m, e);
    assert Outdated(s, request, m, e);
    var v :| Sent(us, m, e) == AsList(v) && Behind(v, Bound(s, m, e)) && Proper(v);
    assert Behind(ServerCell(s.server, m, e), Bound(s, m, e));
    if v.Some? {
      assert v.value in Sent(us, m, e);
      assert Fold(NEW_STAMP, [v.value]) == Newer(NEW_STAMP, v.value);
      if ServerCell(s.server, m, e).Some? {
        var c := ServerCell(s.server, m, e).value;
        assert Fold(c, [v.value]) == Newer(c, v.value);
      }
    }
  }

  lemma HandleKeeps(s: State, request: Request, t: State)
    requires Invariant(s) && Step(s, Handle(request), t)
    ensures Invariant(t)
  {
    hide HandleRequest, CopyOf, Sent, Outdated, Agrees;
    assert forall m, e :: Bound(t, m, e) == Bound(s, m, e);
    PendingStays(s, t);
    if Validation(request).None? {
      forall m, e ensures Behind(ServerCell(t.server, m, e), Bound(t, m, e)) {
        HandleCell(s, request, m, e);
      }
      if t.flush.Sending? && t.flush.handled { HandledAgrees(s, request, t); }
    } else {
      Refusal(s.server, request);
    }
  }

  lemma Refusal(server: Cache, request: Request)
    requires Validation(request).Some?
    ensures HandleRequest(server, request) == server
  {
  }

  lemma HandledAgrees(s: State, request: Request, t: State)
    requires Invariant(s) && Step(s, Handle(request), t)
    requires Validation(request).None? && t.flush.Sending? && t.flush.handled
    ensures Agrees(t.server, t.flush.copied)
  {
    hide HandleRequest, Sent, Outdated;
    forall m, e ensures ServerCell(t.server, m, e) == CopyOf(t.flush.copied, m, e) {
      HandleCell(s, request, m, e);
      OutsideEmpty(s.client, s.flush.copied, m, e);
      assert Bound(s, m, e) == CopyOf(s.flush.copied, m, e);
    }
    CellsAgree(t.server, t.flush.copied);
  }

  lemma StepKeeps(s: State, event: Event, t: State)
    requires Invariant(s) && Step(s, event, t)
    ensures Invariant(t)
  {
    hide Invariant;
    match event
    case UpdatePrice(e, p) => UpdateKeeps(s, e, p, t);
    case Send(request) => SendKeeps(s, request, t);
    case Handle(request) => HandleKeeps(s, request, t);
    case _ => FlushKeeps(s, event, t);
  }

  lemma InitialHolds(s: State)
    requires Initial(s)
    ensures Invariant(s)
  {
  }

  // ---------------------------------------------------------------- runs

  ghost predicate IsRun(states: seq<State>, events: seq<Event>) {
    && |states| == |events| + 1 && Initial(states[0])
    && forall i :: 0 <= i < |events| ==> Step(states[i], events[i], states[i + 1])
  }

  lemma {:induction false} RunKeeps(states: seq<State>, events: seq<Event>, i: nat)
    requires IsRun(states, events) && i < |states|
    ensures Invariant(states[i])
  {
    hide Invariant, Step, Initial;
    if i == 0 {
      InitialHolds(states[0]);
    } else {
      RunKeeps(states, events, i - 1);
      assert Step(states[i - 1], events[i - 1], states[i]);
      StepKeeps(states[i - 1], events[i - 1], states[i]);
    }
  }

  /**
   When a flush succeeds, the server agrees with the snapshot on every market and exchange; so for
   any cutoff the server's median and number of sources are those of the snapshot.
   */
  lemma FlushRefines(states: seq<State>, events: seq<Event>, i: nat, market: MarketId, cutoff: Time)
    requires IsRun(states, events) && i < |events| && events[i] == Finish(true)
    ensures states[i].flush.Sending? && Agrees(states[i + 1].server, states[i].flush.copied)
    ensures IndexPrice(Row(states[i + 1].server, market), cutoff)
         == IndexPrice(Column(states[i].flush.copied, market), cutoff)
    ensures |Fresh(Row(states[i + 1].server, market), cutoff)| == |Fresh(Column(states[i].flush.copied, market), cutoff)|
  {
    hide IndexPrice, Fresh, Ordered, Initial;
    RunKeeps(states, events, i);
    assert Step(states[i], events[i], states[i + 1]);
  }

  /** At all times the server is behind the client: it never holds a price the client has not had. */
  lemma ServerNeverAhead(states: seq<State>, events: seq<Event>, i: nat, market: MarketId, exchange: ExchangeId)
    requires IsRun(states, events) && i < |states|
    ensures Behind(ServerCell(states[i].server, market, exchange), CopyOf(states[i].client, market, exchange))
  {
    hide IsRun;
    RunKeeps(states, events, i);
    var s := states[i];
    assert Behind(ServerCell(s.server, market, exchange), Bound(s, market, exchange));
    assert Behind(Bound(s, market, exchange), CopyOf(s.client, market, exchange));
  }

  ghost predicate NoZero(c: ClientCache) {
    forall m, e :: CopyOf(c, m, e).Some? ==> CopyOf(c, m, e).value.price != 0
  }

  lemma CarriedNoZero(request: Request, copied: ClientCache)
    requires Carries(request.marketPriceUpdates, copied) && Validation(request).None?
    ensures NoZero(copied)
  {
    hide CopyOf, Validation, Sent;
    var us := request.marketPriceUpdates;
    ValidRequests(request);
    forall m, e | CopyOf(copied, m, e).Some? ensures CopyOf(copied, m, e).value.price != 0 {
      SentPriced(us, m, e);
      assert Sent(us, m, e) == AsList(CopyOf(copied, m, e));
      assert CopyOf(copied, m, e).value in Sent(us, m, e);
    }
  }

  /** The copy that is under way has the entry, if it has it already, with this stamp. */
  ghost predicate CopiedAs(s: State, m: MarketId, e: ExchangeId, z: Stamp) {
    !s.flush.Idle? && e in s.flush.copied ==> CopyOf(s.flush.copied, m, e) == Some(z)
  }

  lemma StepCopies(s: State, event: Event, t: State, m: MarketId, e: ExchangeId, z: Stamp)
    requires Step(s, event, t) && CopiedAs(s, m, e, z) && CopyOf(s.client, m, e) == Some(z)
    ensures CopiedAs(t, m, e, z)
  {
    hide HandleRequest, Carries;
  }

  lemma {:induction false} EntryCopied(states: seq<State>, events: seq<Event>, i: nat, j: nat, m: MarketId, e: ExchangeId, z: Stamp)
    requires IsRun(states, events) && i <= j < |states| && states[i].flush.Idle?
    requires forall k :: i <= k <= j ==> CopyOf(states[k].client, m, e) == Some(z)
    ensures CopiedAs(states[j], m, e, z)
    decreases j - i
  {
    hide Step, Initial, CopyOf;
    if i < j {
      EntryCopied(states, events, i, j - 1, m, e, z);
      StepCopies(states[j - 1], events[j - 1], states[j], m, e, z);
    }
  }

  lemma FlushedNoZero(states: seq<State>, events: seq<Event>, i: nat)
    requires IsRun(states, events) && i < |events|
    ensures events[i] == Finish(true) ==>
              states[i].flush.Sending? && states[i].flush.copied.Keys == states[i].client.Keys && NoZero(states[i].flush.copied)
  {
    hide Initial, Ordered, PendingOutdated, NoZero, CopyOf, HandleRequest;
    RunKeeps(states, events, i);
    assert Step(states[i], events[i], states[i + 1]);
    if events[i] == Finish(true) {
      CarriedNoZero(states[i].flush.request, states[i].flush.copied);
    }
  }

  /** As long as one exchange holds a price of zero for one market no flush that begins succeeds. */
  lemma ZeroBlocksFlushes(states: seq<State>, events: seq<Event>, i: nat, j: nat, m: MarketId, e: ExchangeId, z: Stamp)
    requires IsRun(states, events) && i <= j < |events| && states[i].flush.Idle? && z.price == 0
    requires forall k :: i <= k <= j ==> CopyOf(states[k].client, m, e) == Some(z)
    ensures events[j] != Finish(true)
  {
    hide Step, Initial;
    FlushedNoZero(states, events, j);
    EntryCopied(states, events, i, j, m, e, z);
    assert CopyOf(states[j].client, m, e) == Some(z);
    assert e in states[j].client;
  }

  // ---------------------------------------------------------------- one flush

  lemma {:induction false} StampSent(us: seq<MarketPriceUpdate>, u: MarketPriceUpdate, p: ExchangePrice)
    requires AllTimed(us) && u in us && p in u.exchangePrices
    ensures StampOf(p) in Sent(us, u.marketId, p.exchangeId)
  {
    if us[0] == u { StampListed(u.exchangePrices, p); } else { StampSent(us[1..], u, p); }
  }

  lemma {:induction false} StampListed(ps: seq<ExchangePrice>, p: ExchangePrice)
    requires Timed(ps) && p in ps
    ensures StampOf(p) in StampsFor(ps, p.exchangeId)
  {
    if ps[0] != p { StampListed(ps[1..], p); }
  }

  /** The snapshot has a price, and no price of it is zero. */
  ghost predicate Sendable(copied: ClientCache) {
    (exists m, e :: CopyOf(copied, m, e).Some?) && NoZero(copied)
  }

  lemma NothingSent(us: seq<MarketPriceUpdate>, copied: ClientCache)
    requires Carries(us, copied) && forall u | u in us :: u.exchangePrices != []
    ensures us == [] <==> forall m, e :: CopyOf(copied, m, e).None?
  {
    hide CopyOf;
    if us != [] {
      var u, p := us[0], us[0].exchangePrices[0];
      StampSent(us, u, p);
      assert Sent(us, u.marketId, p.exchangeId) == AsList(CopyOf(copied, u.marketId, p.exchangeId));
    } else {
      forall m, e ensures CopyOf(copied, m, e).None? {
        assert Sent(us, m, e) == AsList(CopyOf(copied, m, e));
      }
    }
  }

  lemma SendableIsValid(request: Request, copied: ClientCache)
    requires Carries(request.marketPriceUpdates, copied)
    requires forall u | u in request.marketPriceUpdates :: u.exchangePrices != []
    ensures Validation(request).None? <==> Sendable(copied)
  {
    hide CopyOf, Validation, Sent;
    var us := request.marketPriceUpdates;
    ValidRequests(request);
    NothingSent(us, copied);
    if Validation(request).None? {
      CarriedNoZero(request, copied);
    } else if Sendable(copied) {
      var u :| u in us && !Priced(u.exchangePrices);
      var p :| p in u.exchangePrices && !(p.price != 0 && p.lastUpdateTime.Some?);
      StampSent(us, u, p);
      assert false;
    }
  }

  /** The server after a request that carries the client's cache. */
  lemma SnapshotApplied(client: ClientCache, server: Cache, request: Request)
    requires Carries(request.marketPriceUpdates, client) && Validation(request).None?
    requires Ordered(State(client, server, Idle, {}))
    ensures Agrees(HandleRequest(server, request), client)
  {
    hide CopyOf, HandleRequest, Validation, Sent;
    var s := State(client, server, Idle, {});
    forall m, e ensures Outdated(s, request, m, e) {
      assert Sent(request.marketPriceUpdates, m, e) == AsList(CopyOf(client, m, e));
      assert Proper(CopyOf(s.client, m, e));
    }
    forall m, e ensures ServerCell(HandleRequest(server, request), m, e) == CopyOf(client, m, e) {
      HandleCell(s, request, m, e);
    }
    CellsAgree(HandleRequest(server, request), client);
  }

  datatype FlushError = NoPrices | Refused(UpdateError) | RpcFailed

  /** What becomes of the call: it does not arrive, its answer is lost, or it is answered. */
  datatype Rpc = Lost | AnswerLost | Answered

  /**
   `RunPriceUpdaterTaskLoop` without interference: if the server is behind the client, a flush succeeds
   exactly when there are prices, none is zero, and the call is answered. Once it arrived server and client agree.
   */
  method RunPriceUpdaterTaskLoop(client: ExchangeToMarketPrices, server: MarketToExchangePrices, rpc: Rpc)
    returns (err: Option<FlushError>)
    requires Ordered(State(client.exchangeMarketPrices, server.marketToExchangePrices, Idle, {}))
    modifies server
    ensures err.None? <==> Sendable(client.exchangeMarketPrices) && rpc.Answered?
    ensures err == Some(NoPrices) <==> forall m, e :: CopyOf(client.exchangeMarketPrices, m, e).None?
    ensures Sendable(client.exchangeMarketPrices) && !rpc.Lost? ==>
              Agrees(server.marketToExchangePrices, client.exchangeMarketPrices)
    ensures !Sendable(client.exchangeMarketPrices) || rpc.Lost? ==>
              server.marketToExchangePrices == old(server.marketToExchangePrices)
  {
    hide Sent, Lists, ListedFor, Ordered, Agrees, Sendable, Validation, Carries;
    var priceUpdates := client.GetAllPrices();
    var request := TransformPriceUpdates(priceUpdates);
    TransposedCarries(request.marketPriceUpdates, priceUpdates, client.exchangeMarketPrices);
    SendableIsValid(request, client.exchangeMarketPrices);
    NothingSent(request.marketPriceUpdates, client.exchangeMarketPrices);
    if |request.marketPriceUpdates| > 0 {
      if Validation(request).None? {
        SnapshotApplied(client.exchangeMarketPrices, server.marketToExchangePrices, request);
      }
      err := Call(server, request, rpc);
    } else {
      ValidRequests(request);
      err := Some(NoPrices);
    }
  }

  /** The call of the server's `UpdateMarketPrices`. */
  method Call(server: MarketToExchangePrices, request: Request, rpc: Rpc) returns (err: Option<FlushError>)
    modifies server
    ensures err.None? <==> Validation(request).None? && rpc.Answered?
    ensures err != Some(NoPrices)
    ensures server.marketToExchangePrices ==
            if rpc.Lost? then old(server.marketToExchangePrices) else HandleRequest(old(server.marketToExchangePrices), request)
  {
    if rpc.Lost? { return Some(RpcFailed); }
    var e := server.UpdateMarketPrices(request);
    if rpc.AnswerLost? { return Some(RpcFailed); }
    err := if e.Some? then Some(Refused(e.value)) else None;
  }
}
