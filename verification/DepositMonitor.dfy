/**
 The monitor of bridge deposits: it reports deposits one after the other once their block is final, and
 moves tipped deposits to the reports. Answers of the Ethereum endpoints are arbitrary; each endpoint may
 fail at any time.
 */
module DepositMonitor {
  import opened DepositQueues
  import opened MarketParams
  import opened Options

  /** Deposit ids fit the signed 64-bit integer they are converted to. */
  type DepositId = n: int | 0 <= n < 0x8000_0000_0000_0000

  datatype Details = Details(amount: nat, blockHeight: nat, encoded: Text)

  const FINALITY_DEPTH := 100
  const BRIDGE_QUERY := "TRBBridgeV2"

  /** How query data and report values are encoded and query data is decoded; each may fail. */
  datatype Codec = Codec(
    queryData: DepositId -> Option<Text>,
    value: Details -> Option<Text>,
    decode: Text -> Option<(string, DepositId)>
  )

  /** What the endpoints answer during one tick: by attempt and endpoint, and how many can be reached again. */
  datatype Endpoints = Endpoints(
    latestId: (nat, nat) -> Option<DepositId>,
    reconnected: nat -> nat,
    details: (DepositId, nat) -> Option<Details>,
    blockNumber: nat -> Option<nat>
  )

  // ---------------------------------------------------------------- asking the endpoints

  /** The first answer among `n` endpoints asked in turn, and whether an error is left from them. */
  function Ask<T>(n: nat, answer: nat -> Option<T>): (Option<T>, bool) {
    if n == 0 then (None, false)
    else
      var before := Ask(n - 1, answer);
      if before.0.Some? then before else (answer(n - 1), answer(n - 1).None?)
  }

  method AskAll<T>(n: nat, answer: nat -> Option<T>) returns (r: Option<T>, failed: bool)
    ensures (r, failed) == Ask(n, answer)
  {
    r, failed := None, false;
    for i := 0 to n
      invariant (r, failed) == Ask(i, answer) && r.None?
    {
      r := answer(i);
      failed := r.None?;
      if r.Some? {
        AnswerStays(i + 1, n, answer);
        return;
      }
    }
  }

  lemma {:induction false} AnswerStays<T>(i: nat, n: nat, answer: nat -> Option<T>)
    requires i <= n && Ask(i, answer).0.Some?
    ensures Ask(n, answer) == Ask(i, answer)
  {
    if i < n { AnswerStays(i, n - 1, answer); }
  }

  /** None of the endpoints answers. */
  ghost predicate Silent<T>(n: nat, answer: nat -> Option<T>) {
    forall i :: 0 <= i < n ==> answer(i).None?
  }

  /** Some endpoint answers this, and those before it do not answer. */
  ghost predicate Answers<T(!new)>(n: nat, answer: nat -> Option<T>, v: T) {
    exists i :: 0 <= i < n && answer(i) == Some(v) && Silent(i, answer)
  }

  /** No error is left only from an answer, or if there was nobody to ask. */
  lemma {:induction false} AskIs<T(!new)>(n: nat, answer: nat -> Option<T>)
    ensures Ask(n, answer).0.None? <==> Silent(n, answer)
    ensures Ask(n, answer).1 <==> n > 0 && Silent(n, answer)
    ensures forall v :: Ask(n, answer).0 == Some(v) <==> Answers(n, answer, v)
  {
    if n > 0 {
      AskIs(n - 1, answer);
      assert Silent(n, answer) <==> Silent(n - 1, answer) && answer(n - 1).None?;
      forall v ensures Answers(n, answer, v) <==> Answers(n - 1, answer, v) || (Silent(n - 1, answer) && answer(n - 1) == Some(v)) {
      }
      if !Silent(n - 1, answer) {
        var v := Ask(n - 1, answer).0.value;
        assert Answers(n - 1, answer, v);
      }
    }
  }

  function LatestBy(net: Endpoints, attempt: nat): nat -> Option<DepositId> {
    (i: nat) => net.latestId(attempt, i)
  }

  function DetailsBy(net: Endpoints, id: DepositId): nat -> Option<Details> {
    (i: nat) => net.details(id, i)
  }

  datatype Lookup = Found(details: Details) | Unavailable | NoAmount

  /**
   The details of a deposit. Without an answer and without an error the deposit is unset, and the read of its
   amount fails; zero values count as not available.
   */
  function LookupOf(n: nat, net: Endpoints, id: DepositId): Lookup {
    var (deposit, failed) := Ask(n, DetailsBy(net, id));
    if failed then Unavailable
    else match deposit
         case None => NoAmount
         case Some(d) => if d.amount == 0 || d.blockHeight == 0 then Unavailable else Found(d)
  }

  lemma AmountReadExactly(n: nat, net: Endpoints, id: DepositId)
    ensures LookupOf(n, net, id) == NoAmount <==> n == 0
  {
    AskIs(n, DetailsBy(net, id));
  }

  /** The current block, which stays zero if there is nobody to ask; none for an error. */
  function CurrentBlock(n: nat, net: Endpoints): Option<nat> {
    var (block, failed) := Ask(n, net.blockNumber);
    if failed then None else if block.None? then Some(0) else block
  }

  predicate IsFinal(block: nat, height: nat) {
    block - height >= FINALITY_DEPTH
  }

  /** The latest deposit id that one of the remaining attempts reads, and the connections then. */
  function ReadLatest(connections: nat, net: Endpoints, attempt: nat): (Option<DepositId>, nat)
    requires attempt < 3
    decreases 3 - attempt
  {
    match Ask(connections, LatestBy(net, attempt)).0
    case Some(id) => (Some(id), connections)
    case None => if attempt == 2 then (None, connections) else ReadLatest(net.reconnected(attempt), net, attempt + 1)
  }

  lemma {:induction false} ReadNeedsConnection(connections: nat, net: Endpoints, attempt: nat)
    requires attempt < 3
    ensures ReadLatest(connections, net, attempt).0.Some? ==> ReadLatest(connections, net, attempt).1 > 0
    decreases 3 - attempt
  {
    if attempt < 2 { ReadNeedsConnection(net.reconnected(attempt), net, attempt + 1); }
  }

  /** The number of connections that an attempt asks. */
  function ConnectionsAt(connections: nat, net: Endpoints, attempt: nat): nat {
    if attempt == 0 then connections else net.reconnected(attempt - 1)
  }

  /** An attempt is the first one that reads an id. */
  ghost predicate ReadsAt(connections: nat, net: Endpoints, k: nat, latest: DepositId) {
    && Answers(ConnectionsAt(connections, net, k), LatestBy(net, k), latest)
    && forall j :: 0 <= j < k ==> Silent(ConnectionsAt(connections, net, j), LatestBy(net, j))
  }

  lemma ReadLatestIs(connections: nat, net: Endpoints, latest: DepositId, n: nat)
    ensures ReadLatest(connections, net, 0) == (Some(latest), n)
       <==> exists k :: 0 <= k < 3 && n == ConnectionsAt(connections, net, k) && ReadsAt(connections, net, k, latest)
  {
    hide Ask, Answers, Silent;
    AskIs(connections, LatestBy(net, 0));
    AskIs(net.reconnected(0), LatestBy(net, 1));
    AskIs(net.reconnected(1), LatestBy(net, 2));
    assert ReadLatest(connections, net, 0) == (Some(latest), n) <==>
           || (n == ConnectionsAt(connections, net, 0) && ReadsAt(connections, net, 0, latest))
           || (n == ConnectionsAt(connections, net, 1) && ReadsAt(connections, net, 1, latest))
           || (n == ConnectionsAt(connections, net, 2) && ReadsAt(connections, net, 2, latest));
  }

  // ---------------------------------------------------------------- deposits

  /** A deposit that was reported: at which block and up to which id the chain was known then. */
  datatype Added = Added(id: DepositId, details: Details, block: nat, latest: DepositId)

  datatype Monitor = Monitor(last: Option<DepositId>, connections: nat, added: seq<Added>)

  function LastOf(m: Monitor): DepositId {
    if m.last.Some? then m.last.value else 0
  }

  function ReportOf(codec: Codec, a: Added): DepositReport {
    var queryData, value := codec.queryData(a.id), codec.value(a.details);
    DepositReport(if queryData.Some? then queryData.value else [], if value.Some? then value.value else [])
  }

  /** The deposit that a tick reports: the next one, if it is known to be there, available and final. */
  function Reportable(m: Monitor, net: Endpoints): Option<Added> {
    var (latest, connections) := ReadLatest(m.connections, net, 0);
    if latest.None? || latest.value <= LastOf(m) then None else
      var next := LastOf(m) + 1;
      match (LookupOf(connections, net, next), CurrentBlock(connections, net))
      case (Found(d), Some(block)) => if IsFinal(block, d.blockHeight) then Some(Added(next, d, block, latest.value)) else None
      case _ => None
  }

  function Tick(m: Monitor, net: Endpoints): Monitor {
    var (latest, connections) := ReadLatest(m.connections, net, 0);
    if latest.None? then m.(connections := connections)
    else match Reportable(m, net)
         case None => Monitor(Some(LastOf(m)), connections, m.added)
         case Some(a) => Monitor(Some(a.id), connections, m.added + [a])
  }

  function Run(m: Monitor, nets: seq<Endpoints>): Monitor
    decreases |nets|
  {
    if nets == [] then m else Run(Tick(m, nets[0]), nets[1..])
  }

  /** The reported deposits are those after `start`, in order and without gaps, each final and known when it was reported. */
  ghost predicate InOrder(start: DepositId, m: Monitor) {
    && LastOf(m) == start + |m.added|
    && forall i :: 0 <= i < |m.added| ==>
         && m.added[i].id == start + 1 + i
         && m.added[i].id <= m.added[i].latest
         && m.added[i].block - m.added[i].details.blockHeight >= FINALITY_DEPTH
  }

  lemma TickInOrder(start: DepositId, m: Monitor, net: Endpoints)
    requires InOrder(start, m)
    ensures InOrder(start, Tick(m, net)) && m.added <= Tick(m, net).added
  {
    hide ReadLatest, LookupOf, CurrentBlock;
  }

  /** Over any run, whatever the endpoints answer. */
  lemma {:induction false} RunInOrder(start: DepositId, m: Monitor, nets: seq<Endpoints>)
    requires InOrder(start, m)
    ensures InOrder(start, Run(m, nets)) && m.added <= Run(m, nets).added
    decreases |nets|
  {
    hide InOrder, Tick;
    if nets != [] {
      TickInOrder(start, m, nets[0]);
      RunInOrder(start, Tick(m, nets[0]), nets[1..]);
    }
  }

  /**
   A tick reports a deposit exactly if it is the next one, at most the id that the first answered attempt reads,
   the connections of that attempt first answer its details, which are not zero, and a block 100 or more above.
   */
  lemma TickReports(m: Monitor, net: Endpoints, a: Added)
    ensures Tick(m, net).added == m.added + [a] <==>
              && a.id == (if m.last.Some? then m.last.value else 0) + 1 <= a.latest
              && a.details.amount != 0 && a.details.blockHeight != 0
              && a.block >= a.details.blockHeight + 100
              && exists k :: 0 <= k < 3 && ReadsAt(m.connections, net, k, a.latest)
                   && Answers(ConnectionsAt(m.connections, net, k), DetailsBy(net, a.id), a.details)
                   && Answers(ConnectionsAt(m.connections, net, k), net.blockNumber, a.block)
  {
    hide ReadLatest, Ask, ReadsAt, Answers, ConnectionsAt;
    var n := ReadLatest(m.connections, net, 0).1;
    TickAppends(m, net, a);
    ReadLatestIs(m.connections, net, a.latest, n);
    AskIs(n, DetailsBy(net, a.id));
    AskIs(n, net.blockNumber);
    forall k | 0 <= k < 3 && ReadsAt(m.connections, net, k, a.latest)
      ensures ReadLatest(m.connections, net, 0) == (Some(a.latest), ConnectionsAt(m.connections, net, k))
    {
      ReadLatestIs(m.connections, net, a.latest, ConnectionsAt(m.connections, net, k));
    }
  }

  lemma TickAppends(m: Monitor, net: Endpoints, a: Added)
    ensures Tick(m, net).added == m.added + [a] <==> Reportable(m, net) == Some(a)
  {
    hide ReadLatest, LookupOf, CurrentBlock;
    assert |m.added + [a]| == |m.added| + 1;
    assert (m.added + [a])[|m.added|] == a;
  }

  /** Deposits are never looked up without a connection, since the id was read over one. */
  lemma TickFindsAmount(m: Monitor, net: Endpoints, id: DepositId)
    ensures var (latest, n) := ReadLatest(m.connections, net, 0); latest.Some? ==> LookupOf(n, net, id) != NoAmount
  {
    hide LookupOf, ReadLatest;
    ReadNeedsConnection(m.connections, net, 0);
    AmountReadExactly(ReadLatest(m.connections, net, 0).1, net, id);
  }

  // ---------------------------------------------------------------- tips

  datatype Fate = Kept | Dropped | Moved(report: DepositReport) | Crashed

  predicate IsBridgeTip(codec: Codec, tip: Text) {
    codec.decode(tip).Some? && codec.decode(tip).value.0 == BRIDGE_QUERY
  }

  /**
   What becomes of the oldest tip: it is dropped if it is not the query of a bridge deposit, moved to the
   reports once its deposit is available and final, and kept until then.
   */
  function FateOf(codec: Codec, connections: nat, net: Endpoints, tip: Text): Fate {
    if !IsBridgeTip(codec, tip) then Dropped
    else match LookupOf(connections, net, codec.decode(tip).value.1)
         case NoAmount => Crashed
         case Unavailable => Kept
         case Found(d) =>
           var block := CurrentBlock(connections, net);
           if block.None? || !IsFinal(block.value, d.blockHeight) then Kept
           else (match codec.value(d) case None => Kept case Some(value) => Moved(DepositReport(tip, value)))
  }

  /** The connections first answer these details of a deposit, not zero, and a block 100 or more above. */
  ghost predicate FinalOver(connections: nat, net: Endpoints, id: DepositId, d: Details, block: nat) {
    && Answers(connections, DetailsBy(net, id), d) && d.amount != 0 && d.blockHeight != 0
    && Answers(connections, net.blockNumber, block) && block >= d.blockHeight + 100
  }

  /**
   What becomes of a tip, in terms of the answers: it is moved exactly if it is the query of a bridge deposit whose
   details are answered, not zero, in a block 100 or more below the one answered, and can be encoded; it is dropped
   exactly if it is no such query; without connections the code crashes; and otherwise it is kept.
   */
  lemma FateIs(codec: Codec, connections: nat, net: Endpoints, tip: Text)
    ensures var fate, query := FateOf(codec, connections, net, tip), codec.decode(tip);
            && (fate.Dropped? <==> query.None? || query.value.0 != "TRBBridgeV2")
            && (fate.Crashed? <==> query.Some? && query.value.0 == "TRBBridgeV2" && connections == 0)
            && (forall r :: fate == Moved(r) <==>
                  && query.Some? && query.value.0 == "TRBBridgeV2" && r.queryData == tip
                  && exists d, block :: FinalOver(connections, net, query.value.1, d, block) && codec.value(d) == Some(r.value))
  {
    hide LookupOf, CurrentBlock, FinalOver;
    var query := codec.decode(tip);
    if query.Some? && query.value.0 == "TRBBridgeV2" {
      AmountReadExactly(connections, net, query.value.1);
      forall r
        ensures FateOf(codec, connections, net, tip) == Moved(r) <==>
                  r.queryData == tip
                  && exists d, block :: FinalOver(connections, net, query.value.1, d, block) && codec.value(d) == Some(r.value)
      {
        MovedIs(codec, connections, net, tip, r);
      }
    }
  }

  lemma MovedIs(codec: Codec, n: nat, net: Endpoints, tip: Text, r: DepositReport)
    requires IsBridgeTip(codec, tip)
    ensures FateOf(codec, n, net, tip) == Moved(r) <==>
              r.queryData == tip
              && exists d, block :: FinalOver(n, net, codec.decode(tip).value.1, d, block) && codec.value(d) == Some(r.value)
  {
    hide LookupOf, CurrentBlock, Answers;
    var id := codec.decode(tip).value.1;
    AmountReadExactly(n, net, id);
    FoundIs(n, net, id);
    BlockIs(n, net);
    if FateOf(codec, n, net, tip) == Moved(r) {
      var d, block := LookupOf(n, net, id).details, CurrentBlock(n, net).value;
      assert FinalOver(n, net, id, d, block);
    }
  }

  lemma FoundIs(n: nat, net: Endpoints, id: DepositId)
    ensures forall d :: LookupOf(n, net, id) == Found(d) <==> Answers(n, DetailsBy(net, id), d) && d.amount != 0 && d.blockHeight != 0
  {
    hide Ask, Answers, Silent;
    AskIs(n, DetailsBy(net, id));
  }

  /** Over some connection the current block is one that is answered, or there is an error. */
  lemma BlockIs(n: nat, net: Endpoints)
    ensures n > 0 ==> forall block: nat :: CurrentBlock(n, net) == Some(block) <==> Answers(n, net.blockNumber, block)
    ensures CurrentBlock(n, net).None? <==> n > 0 && Silent(n, net.blockNumber)
    ensures n == 0 ==> CurrentBlock(n, net) == Some(0)
  {
    hide Answers;
    AskIs(n, net.blockNumber);
  }

  /** The queues after one look at the oldest tip. */
  function AfterTip(fate: Fate, tips: seq<Text>, reports: seq<DepositReport>): (seq<Text>, seq<DepositReport>)
    requires tips != []
  {
    match fate
    case Kept => (tips, reports)
    case Dropped => (tips[1..], reports)
    case Moved(report) => (tips[1..], reports + [report])
    case Crashed => (tips, reports)
  }

  // ---------------------------------------------------------------- deposits and tips, over runs

  /** One tick of the daemon: tips that arrived before it, and what is answered for the deposits and for the tip. */
  datatype Round = Round(arriving: seq<Text>, deposits: Endpoints, tip: Endpoints)

  datatype Daemon = Daemon(monitor: Monitor, tips: seq<Text>, reports: seq<DepositReport>)

  function NewReports(codec: Codec, m: Monitor, net: Endpoints): seq<DepositReport> {
    match Reportable(m, net) case None => [] case Some(a) => [ReportOf(codec, a)]
  }

  /** The daemon after a tick; none if it crashed. */
  function Next(codec: Codec, d: Daemon, round: Round): Option<Daemon> {
    var monitor, tips := Tick(d.monitor, round.deposits), d.tips + round.arriving;
    var reports := d.reports + NewReports(codec, d.monitor, round.deposits);
    if tips == [] then Some(Daemon(monitor, tips, reports))
    else
      var fate := FateOf(codec, monitor.connections, round.tip, tips[0]);
      if fate.Crashed? then None
      else var (tips', reports') := AfterTip(fate, tips, reports); Some(Daemon(monitor, tips', reports'))
  }

  function Rounds(codec: Codec, d: Daemon, rounds: seq<Round>): Option<Daemon>
    decreases |rounds|
  {
    if rounds == [] then Some(d)
    else match Next(codec, d, rounds[0]) case None => None case Some(e) => Rounds(codec, e, rounds[1..])
  }

  /** Two attempts find no answer, and the reconnection after them no endpoint. */
  ghost predicate EndsDisconnected(connections: nat, net: Endpoints) {
    && Silent(connections, LatestBy(net, 0))
    && Silent(net.reconnected(0), LatestBy(net, 1))
    && net.reconnected(1) == 0
  }

  /** The oldest tip is a bridge query, and the attempts before the look at it end without a connection. */
  ghost predicate CrashesIn(codec: Codec, d: Daemon, round: Round) {
    var tips := d.tips + round.arriving;
    tips != [] && IsBridgeTip(codec, tips[0]) && EndsDisconnected(d.monitor.connections, round.deposits)
  }

  lemma TickDisconnects(m: Monitor, net: Endpoints)
    ensures Tick(m, net).connections == 0 <==> EndsDisconnected(m.connections, net)
  {
    hide Ask, Silent, Reportable;
    AskIs(m.connections, LatestBy(net, 0));
    AskIs(net.reconnected(0), LatestBy(net, 1));
    NobodyAnswers(m.connections, net);
    TickConnections(m, net);
  }

  lemma NobodyAnswers(connections: nat, net: Endpoints)
    ensures Ask(0, LatestBy(net, 0)).0.None? && Ask(0, LatestBy(net, 1)).0.None?
  {
  }

  lemma TickConnections(m: Monitor, net: Endpoints)
    ensures Tick(m, net).connections == ReadLatest(m.connections, net, 0).1
  {
    hide ReadLatest, Reportable;
  }

  lemma NextCrashes(codec: Codec, d: Daemon, round: Round)
    ensures Next(codec, d, round).None? <==> CrashesIn(codec, d, round)
  {
    hide Tick, LookupOf, CurrentBlock, EndsDisconnected, Reportable;
    var tips := d.tips + round.arriving;
    TickDisconnects(d.monitor, round.deposits);
    if tips != [] && IsBridgeTip(codec, tips[0]) {
      AmountReadExactly(Tick(d.monitor, round.deposits).connections, round.tip, codec.decode(tips[0]).value.1);
    }
  }

  /**
   Over any run, whatever arrives and is answered, the daemon crashes exactly if at some tick that it reaches the
   oldest tip is a bridge query and the attempts of that tick end without a connection.
   */
  lemma {:induction false} CrashWithoutConnections(codec: Codec, d: Daemon, rounds: seq<Round>)
    ensures Rounds(codec, d, rounds).None? <==>
              exists k :: 0 <= k < |rounds| && Rounds(codec, d, rounds[..k]).Some?
                && CrashesIn(codec, Rounds(codec, d, rounds[..k]).value, rounds[k])
    decreases |rounds|
  {
    hide Next, CrashesIn;
    if rounds != [] {
      NextCrashes(codec, d, rounds[0]);
      assert rounds[..0] == [];
      if Next(codec, d, rounds[0]).Some? {
        var e := Next(codec, d, rounds[0]).value;
        CrashWithoutConnections(codec, e, rounds[1..]);
        forall k | 0 < k <= |rounds| ensures Rounds(codec, d, rounds[..k]) == Rounds(codec, e, rounds[1..][..k - 1]) {
          assert rounds[..k][1..] == rounds[1..][..k - 1];
        }
        forall k | 0 < k < |rounds| ensures rounds[k] == rounds[1..][k - 1] {
        }
      }
    }
  }

  /** A report of a reported deposit: its id and its details as they are encoded, or nothing where that fails. */
  lemma ReportIs(codec: Codec, a: Added)
    ensures var r := ReportOf(codec, a);
            && (codec.queryData(a.id) == Some(r.queryData) || (codec.queryData(a.id).None? && r.queryData == []))
            && (codec.value(a.details) == Some(r.value) || (codec.value(a.details).None? && r.value == []))
  {
  }

  /** A report of a deposit that was reported in its turn, at a block 100 or more above it. */
  ghost predicate FromDeposit(codec: Codec, added: seq<Added>, r: DepositReport) {
    exists a :: a in added && a.block >= a.details.blockHeight + 100 && r == ReportOf(codec, a)
  }

  /** A report of the oldest tip at a tick, whose deposit the connections left then answered as final. */
  ghost predicate FromTip(codec: Codec, d: Daemon, round: Round, r: DepositReport) {
    var tips, n := d.tips + round.arriving, Tick(d.monitor, round.deposits).connections;
    && tips != [] && r.queryData == tips[0] && IsBridgeTip(codec, r.queryData)
    && exists details, block ::
         FinalOver(n, round.tip, codec.decode(r.queryData).value.1, details, block) && codec.value(details) == Some(r.value)
  }

  ghost predicate FromTipAt(codec: Codec, d: Daemon, rounds: seq<Round>, k: nat, r: DepositReport) {
    && k < |rounds| && Rounds(codec, d, rounds[..k]).Some?
    && FromTip(codec, Rounds(codec, d, rounds[..k]).value, rounds[k], r)
  }

  lemma NextReports(codec: Codec, d: Daemon, round: Round, r: DepositReport)
    requires Next(codec, d, round).Some? && r in Next(codec, d, round).value.reports
    ensures r in d.reports || FromDeposit(codec, Next(codec, d, round).value.monitor.added, r) || FromTip(codec, d, round, r)
  {
    hide ReadLatest, LookupOf, CurrentBlock, ReportOf, FateOf, FinalOver, Tick;
    TickAdds(d.monitor, round.deposits);
    var tips := d.tips + round.arriving;
    var monitor := Tick(d.monitor, round.deposits);
    if tips != [] {
      var fate := FateOf(codec, monitor.connections, round.tip, tips[0]);
      FateIs(codec, monitor.connections, round.tip, tips[0]);
      assert fate == Moved(r) ==> FromTip(codec, d, round, r);
    }
    var reportable := Reportable(d.monitor, round.deposits);
    if reportable.Some? && r == ReportOf(codec, reportable.value) {
      ReportableRead(d.monitor, round.deposits);
    }
  }

  lemma TickAdds(m: Monitor, net: Endpoints)
    ensures Reportable(m, net).Some? ==> Reportable(m, net).value in Tick(m, net).added
  {
    hide Reportable, ReadLatest;
    ReportableRead(m, net);
  }

  lemma ReportableRead(m: Monitor, net: Endpoints)
    ensures Reportable(m, net).Some? ==>
              ReadLatest(m.connections, net, 0).0.Some? && Reportable(m, net).value.block >= Reportable(m, net).value.details.blockHeight + 100
  {
    hide ReadLatest, LookupOf, CurrentBlock;
  }

  lemma AddedStays(codec: Codec, m: Monitor, net: Endpoints, r: DepositReport)
    ensures FromDeposit(codec, m.added, r) ==> FromDeposit(codec, Tick(m, net).added, r)
  {
    hide ReadLatest, Reportable, ReportOf;
    if FromDeposit(codec, m.added, r) {
      var a :| a in m.added && a.block >= a.details.blockHeight + 100 && r == ReportOf(codec, a);
      assert a in Tick(m, net).added;
    }
  }

  /** Over any run, every new report is of a deposit 100 or more blocks deep, whether reported in its turn or tipped. */
  lemma {:induction false} ReportsFinal(codec: Codec, d: Daemon, rounds: seq<Round>, r: DepositReport)
    requires Rounds(codec, d, rounds).Some? && r in Rounds(codec, d, rounds).value.reports
    ensures || r in d.reports
            || FromDeposit(codec, Rounds(codec, d, rounds).value.monitor.added, r)
            || exists k: nat :: FromTipAt(codec, d, rounds, k, r)
    decreases |rounds|
  {
    hide Next, FromTip, FromDeposit, Tick;
    if rounds != [] {
      var e := Next(codec, d, rounds[0]).value;
      assert rounds[..0] == [];
      ReportsFinal(codec, e, rounds[1..], r);
      if r in e.reports {
        NextReports(codec, d, rounds[0], r);
        RoundsKeepDeposit(codec, e, rounds[1..], r);
        assert FromTip(codec, d, rounds[0], r) ==> FromTipAt(codec, d, rounds, 0, r);
      } else if k: nat :| FromTipAt(codec, e, rounds[1..], k, r) {
        assert rounds[..k + 1][1..] == rounds[1..][..k];
        assert FromTipAt(codec, d, rounds, k + 1, r);
      }
    }
  }

  lemma {:induction false} RoundsKeepDeposit(codec: Codec, d: Daemon, rounds: seq<Round>, r: DepositReport)
    requires Rounds(codec, d, rounds).Some?
    ensures FromDeposit(codec, d.monitor.added, r) ==> FromDeposit(codec, Rounds(codec, d, rounds).value.monitor.added, r)
    decreases |rounds|
  {
    hide FromDeposit, Tick, FateOf, NewReports;
    if rounds != [] {
      AddedStays(codec, d.monitor, rounds[0].deposits, r);
      RoundsKeepDeposit(codec, Next(codec, d, rounds[0]).value, rounds[1..], r);
    }
  }

  /** Such a tick: nobody answers and no endpoint can be reached again, while one tip of a bridge deposit waits. */
  lemma SilentTickCrashes(codec: Codec, d: Daemon, tip: Text, silent: Endpoints, other: Endpoints)
    requires d.tips == [] && IsBridgeTip(codec, tip)
    requires forall attempt, i :: silent.latestId(attempt, i) == None
    requires forall attempt :: silent.reconnected(attempt) == 0
    ensures Rounds(codec, d, [Round([tip], silent, other)]).None?
  {
    hide Next;
    var rounds := [Round([tip], silent, other)];
    NextCrashes(codec, d, rounds[0]);
  }

  /** The deposits of a daemon that goes on are reported in order too. */
  lemma {:induction false} RoundsInOrder(start: DepositId, codec: Codec, d: Daemon, rounds: seq<Round>)
    requires InOrder(start, d.monitor) && Rounds(codec, d, rounds).Some?
    ensures InOrder(start, Rounds(codec, d, rounds).value.monitor)
    decreases |rounds|
  {
    hide Tick, InOrder, FateOf;
    if rounds != [] {
      TickInOrder(start, d.monitor, rounds[0].deposits);
      RoundsInOrder(start, codec, Next(codec, d, rounds[0]).value, rounds[1..]);
    }
  }

  class Client {
    var lastReportedDepositId: Option<DepositId>
    var connections: nat
    const tokenDepositsCache: Queue<DepositReport>
    const tokenBridgeTipsCache: Queue<Text>
    ghost var added: seq<Added>

    ghost function Value(): Monitor
      reads this
    {
      Monitor(lastReportedDepositId, connections, added)
    }

    constructor (last: Option<DepositId>, connections: nat, reports: Queue<DepositReport>, tips: Queue<Text>)
      ensures Value() == Monitor(last, connections, [])
      ensures tokenDepositsCache == reports && tokenBridgeTipsCache == tips
    {
      lastReportedDepositId, this.connections, added := last, connections, [];
      tokenDepositsCache, tokenBridgeTipsCache := reports, tips;
    }

    method QueryCurrentDepositId(net: Endpoints) returns (latest: Option<DepositId>)
      modifies this`connections
      ensures (latest, connections) == ReadLatest(old(connections), net, 0)
    {
      hide Ask;
      var retries, failed := 0, false;
      while true
        invariant retries < 3
        invariant ReadLatest(old(connections), net, 0) == ReadLatest(connections, net, retries)
        decreases 3 - retries
      {
        latest, failed := AskAll(connections, LatestBy(net, retries));
        if latest.Some? || retries == 2 { return; }
        connections := net.reconnected(retries);
        retries := retries + 1;
      }
    }

    method QueryDepositDetails(net: Endpoints, id: DepositId) returns (details: Lookup)
      ensures details == LookupOf(connections, net, id)
      ensures details == NoAmount <==> connections == 0
    {
      AmountReadExactly(connections, net, id);
      var deposit, failed := AskAll(connections, DetailsBy(net, id));
      if failed { return Unavailable; }
      if deposit.None? { return NoAmount; }
      if deposit.value.amount == 0 || deposit.value.blockHeight == 0 { return Unavailable; }
      return Found(deposit.value);
    }

    /** Whether a block is deep enough below the current one; none for an error. */
    method CheckForFinality(net: Endpoints, height: nat) returns (isFinal: Option<bool>, block: nat)
      ensures isFinal == (match CurrentBlock(connections, net) case None => None case Some(b) => Some(b >= height + 100))
      ensures isFinal.Some? ==> CurrentBlock(connections, net) == Some(block)
    {
      block := 0;
      var answer, failed := AskAll(connections, net.blockNumber);
      if failed { return None, block; }
      if answer.Some? { block := answer.value; }
      isFinal := Some(IsFinal(block, height));
    }

    /** The deposits of one tick: at most one is reported, and the error tells whether an answer was missing. */
    method QueryTokenBridgeContract(codec: Codec, net: Endpoints) returns (ok: bool)
      modifies this, tokenDepositsCache
      ensures Value() == Tick(old(Value()), net)
      ensures tokenDepositsCache.items == old(tokenDepositsCache.items) + NewReports(codec, old(Value()), net)
      ensures !ok <==> (var (latest, n) := ReadLatest(old(connections), net, 0);
                        latest.None?
                        || (latest.value > LastOf(old(Value()))
                            && (LookupOf(n, net, LastOf(old(Value())) + 1) == Unavailable
                                || (LookupOf(n, net, LastOf(old(Value())) + 1).Found? && CurrentBlock(n, net).None?))))
    {
      hide ReadLatest, LookupOf, CurrentBlock;
      ghost var was := Value();
      var latest := QueryCurrentDepositId(net);
      if latest.None? { return false; }
      if lastReportedDepositId.None? { lastReportedDepositId := Some(0); }
      if latest.value > lastReportedDepositId.value {
        var nextDepositId := lastReportedDepositId.value + 1;
        TickFindsAmount(was, net, nextDepositId);
        var depositTicket := QueryDepositDetails(net, nextDepositId);
        if depositTicket.Unavailable? { return false; }
        var isFinal, block := CheckForFinality(net, depositTicket.details.blockHeight);
        if isFinal.None? { return false; }
        if !isFinal.value { return true; }
        var queryData, value := codec.queryData(nextDepositId), codec.value(depositTicket.details);
        tokenDepositsCache.Add(DepositReport(if queryData.Some? then queryData.value else [],
                                             if value.Some? then value.value else []));
        lastReportedDepositId := Some(nextDepositId);
        added := added + [Added(nextDepositId, depositTicket.details, block, latest.value)];
      }
      return true;
    }

    /** One look at the oldest tip. `Amount` of an available deposit is never zero, so that check cannot drop it. */
    method ProcessPendingTips(codec: Codec, net: Endpoints) returns (fate: Option<Fate>)
      modifies tokenDepositsCache, tokenBridgeTipsCache
      ensures fate.None? <==> old(tokenBridgeTipsCache.items) == []
      ensures fate.Some? ==>
                && fate.value == FateOf(codec, connections, net, old(tokenBridgeTipsCache.items)[0])
                && (tokenBridgeTipsCache.items, tokenDepositsCache.items)
                   == AfterTip(fate.value, old(tokenBridgeTipsCache.items), old(tokenDepositsCache.items))
                && tokenBridgeTipsCache.items
                   == (if fate.value.Moved? || fate.value.Dropped? then old(tokenBridgeTipsCache.items)[1..] else old(tokenBridgeTipsCache.items))
                && tokenDepositsCache.items
                   == old(tokenDepositsCache.items) + (if fate.value.Moved? then [fate.value.report] else [])
      ensures fate.None? ==> tokenBridgeTipsCache.items == [] && tokenDepositsCache.items == old(tokenDepositsCache.items)
    {
      hide LookupOf, CurrentBlock;
      var oldest := tokenBridgeTipsCache.GetOldest();
      if oldest.None? { return None; }
      var query := codec.decode(oldest.value);
      if query.None? {
        tokenBridgeTipsCache.RemoveOldest();
        return Some(Dropped);
      }
      if query.value.0 != BRIDGE_QUERY {
        tokenBridgeTipsCache.RemoveOldest();
        return Some(Dropped);
      }
      var depositTicket := QueryDepositDetails(net, query.value.1);
      if depositTicket.NoAmount? { return Some(Crashed); }
      if depositTicket.Unavailable? { return Some(Kept); }
      var isFinal, block := CheckForFinality(net, depositTicket.details.blockHeight);
      if isFinal.None? || !isFinal.value { return Some(Kept); }
      var reportValue := codec.value(depositTicket.details);
      if reportValue.None? { return Some(Kept); }
      var report := DepositReport(oldest.value, reportValue.value);
      tokenDepositsCache.Add(report);
      tokenBridgeTipsCache.RemoveOldest();
      return Some(Moved(report));
    }

    /** One tick of the daemon. */
    method OnTick(codec: Codec, deposits: Endpoints, tip: Endpoints) returns (crashed: bool)
      modifies this, tokenDepositsCache, tokenBridgeTipsCache
      ensures var after := Next(codec, Daemon(old(Value()), old(tokenBridgeTipsCache.items), old(tokenDepositsCache.items)),
                                Round([], deposits, tip));
              crashed == after.None?
              && (!crashed ==> after.value == Daemon(Value(), tokenBridgeTipsCache.items, tokenDepositsCache.items))
    {
      hide Tick, FateOf, NewReports;
      assert old(tokenBridgeTipsCache.items) + [] == old(tokenBridgeTipsCache.items);
      var _ := QueryTokenBridgeContract(codec, deposits);
      var fate := ProcessPendingTips(codec, tip);
      crashed := fate == Some(Crashed);
    }
  }
}
