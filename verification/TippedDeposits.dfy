/**
 Tipped bridge deposits on their way through the queue: the reporter enters each of them once, the
 deposit monitor takes them out one by one. Both run concurrently.
 */
module TippedDeposits {
  import opened DepositMonitor
  import opened DepositQueues
  import opened MarketParams
  import opened Options
  import opened Sorting

  // ---------------------------------------------------------------- entering the queue

  /** A tipped query: its id, when it expires, whether it is of a bridge deposit, and committed when its turn comes. */
  datatype TippedQuery = TippedQuery(id: nat, queryData: Text, expiration: nat, isBridge: bool, committed: bool)

  predicate Enters(q: TippedQuery, height: nat) {
    height <= q.expiration && !q.committed && q.isBridge
  }

  /** The bridge queries of a list that are not yet known, each id once. */
  function NewTips(known: set<nat>, qs: seq<TippedQuery>, height: nat): seq<TippedQuery>
    decreases |qs|
  {
    if qs == [] then []
    else if Enters(qs[0], height) && qs[0].id !in known
    then [qs[0]] + NewTips(known + {qs[0].id}, qs[1..], height)
    else NewTips(known, qs[1..], height)
  }

  function Ids(qs: seq<TippedQuery>): set<nat> {
    set q | q in qs :: q.id
  }

  function Datas(qs: seq<TippedQuery>): (ds: seq<Text>)
    ensures |ds| == |qs|
  {
    seq(|qs|, i requires 0 <= i < |qs| => qs[i].queryData)
  }

  ghost predicate DistinctIds(qs: seq<TippedQuery>) {
    forall i, j :: 0 <= i < j < |qs| ==> qs[i].id != qs[j].id
  }

  /** What enters is new, distinct, and everything that has to. */
  lemma {:induction false} NewTipsOnce(known: set<nat>, qs: seq<TippedQuery>, height: nat)
    ensures var entering := NewTips(known, qs, height);
            && DistinctIds(entering) && Ids(entering) !! known
            && (forall q | q in entering :: q in qs && height <= q.expiration && !q.committed && q.isBridge)
            && (forall q | q in qs && height <= q.expiration && !q.committed && q.isBridge :: q.id in known || q.id in Ids(entering))
    decreases |qs|
  {
    if qs != [] {
      assert qs == [qs[0]] + qs[1..];
      var enters := Enters(qs[0], height) && qs[0].id !in known;
      var next := if enters then known + {qs[0].id} else known;
      NewTipsOnce(next, qs[1..], height);
      var rest := NewTips(next, qs[1..], height);
      if enters {
        var entering := [qs[0]] + rest;
        assert forall q :: q in entering <==> q == qs[0] || q in rest;
        forall j | 0 <= j < |rest| ensures rest[j].id != qs[0].id {
          assert rest[j].id in Ids(rest);
        }
      }
    }
  }

  /** The query at `i` is not expired, not committed and of a bridge deposit, and its id neither known nor of one before it that is so too. */
  ghost predicate IsNew(known: set<nat>, qs: seq<TippedQuery>, height: nat, i: nat) {
    && i < |qs| && height <= qs[i].expiration && !qs[i].committed && qs[i].isBridge && qs[i].id !in known
    && forall j :: 0 <= j < i && qs[j].id == qs[i].id ==> height > qs[j].expiration || qs[j].committed || !qs[j].isBridge
  }

  /** What enters are the new queries of the list, in its order. */
  lemma {:induction false} NewTipsInOrder(known: set<nat>, qs: seq<TippedQuery>, height: nat) returns (at: seq<nat>)
    ensures PickedAt(at, NewTips(known, qs, height), qs)
    ensures forall i :: i in at <==> 0 <= i < |qs| && IsNew(known, qs, height, i)
    decreases |qs|
  {
    hide PickedAt, IsNew;
    at := [];
    if qs != [] {
      var enters := Enters(qs[0], height) && qs[0].id !in known;
      var next := if enters then known + {qs[0].id} else known;
      var rest := NewTipsInOrder(next, qs[1..], height);
      at := PickFirst(rest, NewTips(next, qs[1..], height), qs, enters);
      assert [] + NewTips(next, qs[1..], height) == NewTips(next, qs[1..], height);
      FirstIsNew(known, qs, height);
      forall i: int ensures i in at <==> 0 <= i < |qs| && IsNew(known, qs, height, i) {
        if i > 0 {
          NewInRest(known, qs, height, i);
          assert (i - 1) + 1 in at <==> i - 1 in rest;
        }
      }
    } else {
      NothingPicked<TippedQuery>();
    }
  }

  lemma FirstIsNew(known: set<nat>, qs: seq<TippedQuery>, height: nat)
    requires qs != []
    ensures IsNew(known, qs, height, 0) <==> Enters(qs[0], height) && qs[0].id !in known
  {
  }

  lemma NewInRest(known: set<nat>, qs: seq<TippedQuery>, height: nat, i: nat)
    requires 0 < i && qs != []
    ensures var next := if Enters(qs[0], height) && qs[0].id !in known then known + {qs[0].id} else known;
            IsNew(known, qs, height, i) <==> IsNew(next, qs[1..], height, i - 1)
  {
    assert forall j | 0 < j < |qs| :: qs[1..][j - 1] == qs[j];
    if i < |qs| {
      if IsNew(if Enters(qs[0], height) && qs[0].id !in known then known + {qs[0].id} else known, qs[1..], height, i - 1) {
        forall j | 0 <= j < i && qs[j].id == qs[i].id ensures height > qs[j].expiration || qs[j].committed || !qs[j].isBridge {
          if j > 0 { assert qs[1..][j - 1].id == qs[i].id; }
        }
      } else if IsNew(known, qs, height, i) {
        forall j | 0 <= j < i - 1 && qs[1..][j].id == qs[1..][i - 1].id
          ensures height > qs[1..][j].expiration || qs[1..][j].committed || !qs[1..][j].isBridge
        {
          assert qs[j + 1].id == qs[i].id;
        }
      }
    }
  }

  class TipMonitor {
    const tips: Queue<Text>
    var depositTipMap: set<nat>

    constructor (tips: Queue<Text>)
      ensures this.tips == tips && depositTipMap == {}
    {
      this.tips, depositTipMap := tips, {};
    }

    /** The queries of one lookup; those that are not bridge deposits are reported elsewhere. */
    method EnterTips(queries: seq<TippedQuery>, height: nat)
      modifies this, tips
      ensures tips.items == old(tips.items) + Datas(NewTips(old(depositTipMap), queries, height))
      ensures depositTipMap == old(depositTipMap) + Ids(NewTips(old(depositTipMap), queries, height))
      ensures var entering := NewTips(old(depositTipMap), queries, height);
              && |tips.items| == |old(tips.items)| + |entering| && old(tips.items) <= tips.items
              && (forall k :: 0 <= k < |entering| ==> tips.items[|old(tips.items)| + k] == entering[k].queryData)
              && forall id :: id in depositTipMap <==> id in old(depositTipMap) || exists q :: q in entering && q.id == id
    {
      hide Enters;
      ghost var done := [];
      for i := 0 to |queries|
        invariant NewTips(old(depositTipMap), queries, height)
               == done + NewTips(depositTipMap, queries[i..], height)
        invariant tips.items == old(tips.items) + Datas(done)
        invariant depositTipMap == old(depositTipMap) + Ids(done)
      {
        var q := queries[i];
        assert queries[i..][1..] == queries[i + 1..];
        if Enters(q, height) && q.id !in depositTipMap {
          tips.Add(q.queryData);
          depositTipMap := depositTipMap + {q.id};
          EnterOne(done, q);
          done := done + [q];
        }
      }
      assert done + [] == done;
    }
  }

  lemma EnterOne(done: seq<TippedQuery>, q: TippedQuery)
    ensures Datas(done + [q]) == Datas(done) + [q.queryData] && Ids(done + [q]) == Ids(done) + {q.id}
    ensures forall rest: seq<TippedQuery> :: done + ([q] + rest) == (done + [q]) + rest
  {
    assert Datas(done + [q]) == Datas(done) + [q.queryData];
    forall x ensures x in Ids(done + [q]) <==> x in Ids(done) + {q.id} {
      assert forall p :: p in done + [q] <==> p in done || p == q;
    }
  }

  // ---------------------------------------------------------------- both goroutines

  /**
   The queue, which query is being entered (queued but not yet marked) and which tip is being looked at;
   with what entered so far, and what became of those that left. A crash ends the run.
   */
  datatype State = State(
    known: set<nat>,
    entering: Option<nat>,
    tips: seq<Text>,
    looking: Option<Text>,
    entered: seq<TippedQuery>,
    fates: seq<Fate>
  )

  datatype Event = Enter(query: TippedQuery) | Mark | Look | Settle(codec: Codec, connections: nat, net: Endpoints)

  ghost predicate Initial(s: State) {
    s == State({}, None, [], None, [], [])
  }

  predicate Leaves(fate: Fate) {
    fate.Dropped? || fate.Moved?
  }

  ghost predicate Step(s: State, event: Event, t: State) {
    match event
    case Enter(q) =>
      && s.entering.None? && q.id !in s.known
      && t == s.(entering := Some(q.id), tips := s.tips + [q.queryData], entered := s.entered + [q])
    case Mark =>
      s.entering.Some? && t == s.(entering := None, known := s.known + {s.entering.value})
    case Look =>
      s.looking.None? && s.tips != [] && t == s.(looking := Some(s.tips[0]))
    case Settle(codec, connections, net) =>
      && s.looking.Some?
      && var fate := FateOf(codec, connections, net, s.looking.value);
         && !fate.Crashed?
         && t == if Leaves(fate)
                 then s.(looking := None, tips := if s.tips == [] then [] else s.tips[1..], fates := s.fates + [fate])
                 else s.(looking := None)
  }

  lemma FateMovesTip(codec: Codec, connections: nat, net: Endpoints, tip: Text)
    ensures var fate := FateOf(codec, connections, net, tip); fate.Moved? ==> fate.report.queryData == tip
  {
  }

  /** Each id entered once; the queue is what entered and did not leave; what was moved kept its query data. */
  ghost predicate Invariant(s: State) {
    && DistinctIds(s.entered) && Ids(s.entered) == s.known + (if s.entering.Some? then {s.entering.value} else {})
    && |s.fates| <= |s.entered| && s.tips == Datas(s.entered[|s.fates|..])
    && (s.looking.Some? ==> s.tips != [] && s.tips[0] == s.looking.value)
    && forall i :: 0 <= i < |s.fates| ==>
         Leaves(s.fates[i]) && (s.fates[i].Moved? ==> s.fates[i].report.queryData == s.entered[i].queryData)
  }

  lemma StepKeeps(s: State, event: Event, t: State)
    requires Invariant(s) && Step(s, event, t)
    ensures Invariant(t)
  {
    hide FateOf;
    match event
    case Enter(q) =>
      EnterKeeps(s, q, t);
    case Mark =>
    case Look =>
    case Settle(_, _, _) =>
      SettleKeeps(s, event, t);
  }

  lemma SettleKeeps(s: State, event: Event, t: State)
    requires Invariant(s) && Step(s, event, t) && event.Settle?
    ensures Invariant(t)
  {
    hide FateOf, DistinctIds, Ids;
    FateMovesTip(event.codec, event.connections, event.net, s.looking.value);
    assert s.entered[|s.fates|..] == [s.entered[|s.fates|]] + s.entered[|s.fates| + 1..];
    assert s.looking.value == s.entered[|s.fates|].queryData;
  }

  lemma EnterKeeps(s: State, q: TippedQuery, t: State)
    requires Invariant(s) && Step(s, Enter(q), t)
    ensures Invariant(t)
  {
    var n := |s.fates|;
    EnterOne(s.entered, q);
    EnterOne(s.entered[n..], q);
    assert t.entered[n..] == s.entered[n..] + [q];
    forall i | 0 <= i < |s.entered| ensures s.entered[i].id != q.id {
      assert s.entered[i].id in Ids(s.entered);
    }
  }

  ghost predicate IsRun(states: seq<State>, events: seq<Event>) {
    && |states| == |events| + 1 && Initial(states[0])
    && forall i :: 0 <= i < |events| ==> Step(states[i], events[i], states[i + 1])
  }

  lemma {:induction false} RunKeeps(states: seq<State>, events: seq<Event>, i: nat)
    requires IsRun(states, events) && i < |states|
    ensures Invariant(states[i])
  {
    hide Step, Invariant;
    if i == 0 {
      InitialHolds(states[0]);
    } else {
      RunKeeps(states, events, i - 1);
      StepKeeps(states[i - 1], events[i - 1], states[i]);
    }
  }

  lemma InitialHolds(s: State)
    requires Initial(s)
    ensures Invariant(s)
  {
  }

  /** In any run no id enters twice, and the queue is exactly what entered without being dropped or moved. */
  lemma TipsEnterOnce(states: seq<State>, events: seq<Event>, i: nat)
    requires IsRun(states, events) && i < |states|
    ensures DistinctIds(states[i].entered)
    ensures |states[i].fates| + |states[i].tips| == |states[i].entered|
    ensures forall k :: 0 <= k < |states[i].tips| ==> states[i].tips[k] == states[i].entered[|states[i].fates| + k].queryData
    ensures forall k :: 0 <= k < |states[i].fates| ==>
              states[i].fates[k] == Dropped
              || (states[i].fates[k].Moved? && states[i].fates[k].report.queryData == states[i].entered[k].queryData)
  {
    hide IsRun;
    RunKeeps(states, events, i);
  }
}
