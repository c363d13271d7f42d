/**
 The response cache in front of upstream fetches, with any number of concurrent callers. A caller
 looks its key up; on a miss it joins the flight of the key or starts one; the leader of a flight
 looks the key up again and fetches only if that misses too. Lookups read the cache and compare times
 in two separate moments.
 */
module ResponseCache {
  import opened MarketParams
  import opened Options
  import opened Times

  type Key = Text
  type Body = Text
  type Caller = nat

  datatype Entry = Entry(body: Body, fetchedAt: Time)

  /** What a call returns: a body, when it was fetched and when that was found recent enough; or an error. */
  datatype Answer = Failed | Answer(body: Body, fetchedAt: Time, checkedAt: Time)

  /** Where a call is. */
  datatype Call =
    | Looking(key: Key, found: Option<Entry>)
    | Missed(key: Key)
    | Waiting(key: Key)
    | Leading(key: Key)
    | Rechecking(key: Key, found: Option<Entry>)
    | Fetching(key: Key)
    | Finishing(key: Key, answer: Answer)
    | Done(key: Key, answer: Answer)

  datatype Completion = Completion(key: Key, body: Body, at: Time)

  datatype State = State(
    now: Time,
    items: map<Key, Entry>,
    flights: map<Key, Caller>,
    calls: map<Caller, Call>,
    completed: seq<Completion>
  )

  datatype Event =
    | Tick(now: Time)
    | Read(caller: Caller, key: Key)
    | Check(caller: Caller)
    | Join(caller: Caller)
    | Reread(caller: Caller)
    | Recheck(caller: Caller)
    | Fetched(caller: Caller, body: Body)
    | FetchFailed(caller: Caller)
    | Finish(caller: Caller)

  // ---------------------------------------------------------------- the code

  function Find(items: map<Key, Entry>, key: Key): Option<Entry> {
    if key in items then Some(items[key]) else None
  }

  predicate Recent(found: Option<Entry>, now: Time, ttl: Time) {
    found.Some? && !(now - found.value.fetchedAt > ttl)
  }

  class Cache {
    const ttl: Time
    var items: map<Key, Entry>

    constructor (ttl: Time)
      ensures this.ttl == ttl && items == map[]
    {
      this.ttl, items := ttl, map[];
    }

    method Get(key: Key, now: Time) returns (body: Option<Body>)
      ensures body == if Recent(Find(items, key), now, ttl) then Some(items[key].body) else None
      ensures body.Some? <==> key in items && now - items[key].fetchedAt <= ttl
    {
      if key !in items || now - items[key].fetchedAt > ttl { return None; }
      return Some(items[key].body);
    }

    method Set(key: Key, body: Body, now: Time)
      modifies this
      ensures items == old(items)[key := Entry(body, now)]
    {
      items := items[key := Entry(body, now)];
    }

    /**
     `FetchJSON` without other callers: `upstream` is what a fetch would bring, and the times are those
     of the two lookups and of the end of the fetch. Without a time to live the cache is left alone.
     */
    method FetchJSON(key: Key, lookedAt: Time, recheckedAt: Time, upstream: Option<Body>, doneAt: Time)
      returns (body: Option<Body>, fetched: bool)
      modifies this
      ensures fetched <==>
                ttl <= 0 || !(Recent(old(Find(items, key)), lookedAt, ttl) || Recent(old(Find(items, key)), recheckedAt, ttl))
      ensures body == if fetched then upstream else Some(old(Find(items, key)).value.body)
      ensures items == if fetched && upstream.Some? && ttl > 0 then old(items)[key := Entry(upstream.value, doneAt)] else old(items)
    {
      if ttl <= 0 { return upstream, true; }
      body := Get(key, lookedAt);
      if body.Some? { return body, false; }
      body := Get(key, recheckedAt);
      if body.Some? { return body, false; }
      if upstream.None? { return None, true; }
      Set(key, upstream.value, doneAt);
      return upstream, true;
    }
  }

  // ---------------------------------------------------------------- the state machine

  predicate InFlight(call: Call) {
    call.Leading? || call.Rechecking? || call.Fetching? || call.Finishing?
  }

  ghost predicate Initial(s: State) {
    s.items == map[] && s.flights == map[] && s.calls == map[] && s.completed == []
  }

  function Settle(found: Option<Entry>, now: Time): Answer
    requires found.Some?
  {
    Answer(found.value.body, found.value.fetchedAt, now)
  }

  /** A flight that ends gives its answer to its leader and to all that wait for the key. */
  function Deliver(calls: map<Caller, Call>, leader: Caller, key: Key, answer: Answer): map<Caller, Call> {
    map c | c in calls :: if c == leader || calls[c] == Waiting(key) then Done(key, answer) else calls[c]
  }

  ghost predicate Step(s: State, ttl: Time, event: Event, t: State) {
    match event
    case Tick(now) => now >= s.now && t == s.(now := now)
    case Read(c, key) => c !in s.calls && t == s.(calls := s.calls[c := Looking(key, Find(s.items, key))])
    case Check(c) =>
      && c in s.calls && s.calls[c].Looking?
      && var (key, found) := (s.calls[c].key, s.calls[c].found);
         t == s.(calls := s.calls[c := if Recent(found, s.now, ttl) then Done(key, Settle(found, s.now)) else Missed(key)])
    case Join(c) =>
      && c in s.calls && s.calls[c].Missed?
      && var key := s.calls[c].key;
         if key in s.flights then t == s.(calls := s.calls[c := Waiting(key)])
         else t == s.(calls := s.calls[c := Leading(key)], flights := s.flights[key := c])
    case Reread(c) =>
      && c in s.calls && s.calls[c].Leading?
      && t == s.(calls := s.calls[c := Rechecking(s.calls[c].key, Find(s.items, s.calls[c].key))])
    case Recheck(c) =>
      && c in s.calls && s.calls[c].Rechecking?
      && var (key, found) := (s.calls[c].key, s.calls[c].found);
         t == s.(calls := s.calls[c := if Recent(found, s.now, ttl) then Finishing(key, Settle(found, s.now)) else Fetching(key)])
    case Fetched(c, body) =>
      && c in s.calls && s.calls[c].Fetching?
      && var key := s.calls[c].key;
         t == s.(calls := s.calls[c := Finishing(key, Answer(body, s.now, s.now))],
                 items := s.items[key := Entry(body, s.now)],
                 completed := s.completed + [Completion(key, body, s.now)])
    case FetchFailed(c) =>
      c in s.calls && s.calls[c].Fetching? && t == s.(calls := s.calls[c := Finishing(s.calls[c].key, Failed)])
    case Finish(c) =>
      && c in s.calls && s.calls[c].Finishing?
      && t == s.(calls := Deliver(s.calls, c, s.calls[c].key, s.calls[c].answer), flights := s.flights - {s.calls[c].key})
  }

  // ---------------------------------------------------------------- the invariant

  /** The call leads the flight of its key. */
  ghost predicate Leads(s: State, c: Caller) {
    c in s.calls && s.calls[c].key in s.flights && s.flights[s.calls[c].key] == c
  }

  /** Each flight has one leader, which is at work on it, and no one else is at work on its key. */
  ghost predicate OneLeader(s: State) {
    && (forall k | k in s.flights :: s.flights[k] in s.calls && s.calls[s.flights[k]].key == k && InFlight(s.calls[s.flights[k]]))
    && (forall c | c in s.calls && InFlight(s.calls[c]) :: Leads(s, c))
  }

  /** A stored entry is the latest completed fetch of its key. */
  ghost predicate StoresLatest(s: State) {
    && (forall k | k in s.items :: Completion(k, s.items[k].body, s.items[k].fetchedAt) in s.completed)
    && (forall x | x in s.completed :: x.key in s.items && x.at <= s.items[x.key].fetchedAt <= s.now)
  }

  /** Successive completed fetches of one key are more than the time to live apart. */
  ghost predicate Spaced(completed: seq<Completion>, ttl: Time) {
    forall i, j :: 0 <= i < j < |completed| && completed[i].key == completed[j].key ==> completed[j].at - completed[i].at > ttl
  }

  /** The body was fetched for the key, and was at most the time to live old when it was checked. */
  ghost predicate Justified(completed: seq<Completion>, now: Time, key: Key, answer: Answer, ttl: Time) {
    answer.Answer? ==>
      && Completion(key, answer.body, answer.fetchedAt) in completed
      && answer.fetchedAt <= answer.checkedAt <= now && answer.checkedAt - answer.fetchedAt <= ttl
  }

  ghost predicate GoodEntry(completed: seq<Completion>, now: Time, key: Key, found: Option<Entry>) {
    found.Some? ==> Completion(key, found.value.body, found.value.fetchedAt) in completed && found.value.fetchedAt <= now
  }

  ghost predicate GoodCall(s: State, call: Call, ttl: Time) {
    match call
    case Looking(key, found) => GoodEntry(s.completed, s.now, key, found)
    case Rechecking(key, found) => GoodEntry(s.completed, s.now, key, found) && found == Find(s.items, key)
    case Fetching(key) => !Recent(Find(s.items, key), s.now, ttl)
    case Finishing(key, answer) => Justified(s.completed, s.now, key, answer, ttl)
    case Done(key, answer) => Justified(s.completed, s.now, key, answer, ttl)
    case _ => true
  }

  ghost predicate Invariant(s: State, ttl: Time) {
    && OneLeader(s) && StoresLatest(s) && Spaced(s.completed, ttl)
    && forall c | c in s.calls :: GoodCall(s, s.calls[c], ttl)
  }

  /** Time passing spoils nothing. */
  lemma TickKeeps(s: State, ttl: Time, event: Event, t: State)
    requires Invariant(s, ttl) && Step(s, ttl, event, t) && event.Tick?
    ensures Invariant(t, ttl)
  {
    forall c | c in t.calls ensures GoodCall(t, t.calls[c], ttl) {
      assert GoodCall(s, s.calls[c], ttl);
    }
  }

  /** Steps that change one call, and neither the flights nor the cache. */
  lemma CallKeeps(s: State, ttl: Time, c: Caller, call: Call, t: State)
    requires Invariant(s, ttl) && t == s.(calls := s.calls[c := call]) && GoodCall(s, call, ttl)
    requires if c in s.calls then InFlight(call) == InFlight(s.calls[c]) && call.key == s.calls[c].key else !InFlight(call)
    ensures Invariant(t, ttl)
  {
    hide Spaced, GoodEntry, Justified;
    forall x | x in t.calls ensures GoodCall(t, t.calls[x], ttl) {
      assert x != c ==> GoodCall(s, s.calls[x], ttl);
    }
    forall x | x in t.calls && InFlight(t.calls[x]) ensures Leads(t, x) {
      assert Leads(s, x);
    }
    assert StoresLatest(t);
  }

  lemma LeadKeeps(s: State, ttl: Time, c: Caller, t: State)
    requires Invariant(s, ttl) && Step(s, ttl, Join(c), t) && s.calls[c].key !in s.flights
    ensures Invariant(t, ttl)
  {
    hide Spaced, GoodEntry, Justified;
    forall x | x in t.calls ensures GoodCall(t, t.calls[x], ttl) {
      assert x != c ==> GoodCall(s, s.calls[x], ttl);
    }
    forall x | x in t.calls && InFlight(t.calls[x]) ensures Leads(t, x) {
      assert x != c ==> Leads(s, x);
    }
  }

  lemma FinishKeeps(s: State, ttl: Time, c: Caller, t: State)
    requires Invariant(s, ttl) && Step(s, ttl, Finish(c), t)
    ensures Invariant(t, ttl)
  {
    hide Spaced, GoodEntry, Justified, Recent;
    assert GoodCall(s, s.calls[c], ttl);
    forall x | x in t.calls ensures GoodCall(t, t.calls[x], ttl) {
      assert GoodCall(s, s.calls[x], ttl);
    }
    assert Leads(s, c);
    forall x | x in t.calls && InFlight(t.calls[x]) ensures Leads(t, x) {
      assert Leads(s, x);
    }
  }

  /** A fetch completes more than the time to live after the previous one of its key. */
  lemma SpacedStep(s: State, ttl: Time, c: Caller, body: Body, t: State)
    requires Invariant(s, ttl) && Step(s, ttl, Fetched(c, body), t)
    ensures Spaced(t.completed, ttl)
  {
    var key, n := s.calls[c].key, |s.completed|;
    assert GoodCall(s, s.calls[c], ttl);
    forall i | 0 <= i < n && s.completed[i].key == key ensures s.now - s.completed[i].at > ttl {
      assert s.completed[i] in s.completed;
    }
  }

  lemma FetchedCalls(s: State, ttl: Time, c: Caller, body: Body, t: State)
    requires Invariant(s, ttl) && Step(s, ttl, Fetched(c, body), t) && ttl >= 0
    ensures forall x | x in t.calls :: GoodCall(t, t.calls[x], ttl)
  {
    hide Spaced, StoresLatest;
    assert Leads(s, c);
    forall x | x in t.calls ensures GoodCall(t, t.calls[x], ttl) {
      if x != c {
        assert GoodCall(s, s.calls[x], ttl);
        assert InFlight(s.calls[x]) ==> Leads(s, x);
      }
    }
  }

  lemma FetchedLeads(s: State, ttl: Time, c: Caller, body: Body, t: State)
    requires OneLeader(s) && Step(s, ttl, Fetched(c, body), t)
    ensures OneLeader(t)
  {
    forall x | x in t.calls && InFlight(t.calls[x]) ensures Leads(t, x) {
      assert Leads(s, x);
    }
  }

  lemma FetchedKeeps(s: State, ttl: Time, c: Caller, body: Body, t: State)
    requires Invariant(s, ttl) && Step(s, ttl, Fetched(c, body), t) && ttl >= 0
    ensures Invariant(t, ttl)
  {
    hide Spaced, StoresLatest, OneLeader, GoodCall;
    SpacedStep(s, ttl, c, body, t);
    FetchedCalls(s, ttl, c, body, t);
    FetchedLeads(s, ttl, c, body, t);
    StoredStep(s, ttl, c, body, t);
  }

  lemma StoredStep(s: State, ttl: Time, c: Caller, body: Body, t: State)
    requires StoresLatest(s) && Step(s, ttl, Fetched(c, body), t)
    ensures StoresLatest(t)
  {
    forall x | x in t.completed ensures x.key in t.items && x.at <= t.items[x.key].fetchedAt <= t.now {
      assert x in s.completed || x == Completion(s.calls[c].key, body, s.now);
    }
  }

  lemma StepKeeps(s: State, ttl: Time, event: Event, t: State)
    requires Invariant(s, ttl) && Step(s, ttl, event, t) && ttl >= 0
    ensures Invariant(t, ttl)
  {
    hide OneLeader, Spaced;
    match event
    case Tick(_) => TickKeeps(s, ttl, event, t);
    case Fetched(c, body) => FetchedKeeps(s, ttl, c, body, t);
    case Finish(c) => FinishKeeps(s, ttl, c, t);
    case Read(c, key) => CallKeeps(s, ttl, c, t.calls[c], t);
    case Check(c) => assert GoodCall(s, s.calls[c], ttl); CallKeeps(s, ttl, c, t.calls[c], t);
    case Join(c) => if s.calls[c].key in s.flights { CallKeeps(s, ttl, c, t.calls[c], t); } else { LeadKeeps(s, ttl, c, t); }
    case Reread(c) => CallKeeps(s, ttl, c, t.calls[c], t);
    case Recheck(c) => assert GoodCall(s, s.calls[c], ttl); CallKeeps(s, ttl, c, t.calls[c], t);
    case FetchFailed(c) => CallKeeps(s, ttl, c, t.calls[c], t);
  }

  // ---------------------------------------------------------------- runs

  ghost predicate IsRun(states: seq<State>, ttl: Time, events: seq<Event>) {
    && |states| == |events| + 1 && Initial(states[0])
    && forall i :: 0 <= i < |events| ==> Step(states[i], ttl, events[i], states[i + 1])
  }

  lemma {:induction false} RunKeeps(states: seq<State>, ttl: Time, events: seq<Event>, i: nat)
    requires IsRun(states, ttl, events) && i < |states| && ttl >= 0
    ensures Invariant(states[i], ttl)
  {
    hide Step;
    if i > 0 {
      RunKeeps(states, ttl, events, i - 1);
      assert Step(states[i - 1], ttl, events[i - 1], states[i]);
      StepKeeps(states[i - 1], ttl, events[i - 1], states[i]);
    }
  }

  /** At most one fetch of a key is under way at any time. */
  lemma OneFetchAtATime(states: seq<State>, ttl: Time, events: seq<Event>, i: nat, c: Caller, d: Caller)
    requires IsRun(states, ttl, events) && i < |states| && ttl >= 0
    requires c in states[i].calls && states[i].calls[c].Fetching? && d in states[i].calls && states[i].calls[d].Fetching?
    requires states[i].calls[c].key == states[i].calls[d].key
    ensures c == d
  {
    RunKeeps(states, ttl, events, i);
    assert Leads(states[i], c) && Leads(states[i], d);
  }

  // ---------------------------------------------------------------- those who wait

  /** A fetch of the key failed in the first `i` steps of a run. */
  ghost predicate FailedBefore(states: seq<State>, events: seq<Event>, i: nat, key: Key)
    requires |states| == |events| + 1
  {
    exists j, c :: 0 <= j < i && j < |events| && events[j] == FetchFailed(c) && c in states[j].calls && states[j].calls[c] == Fetching(key)
  }

  /** Whoever waits for a key waits for a flight of it. */
  ghost predicate WaitersServed(s: State) {
    forall c | c in s.calls && s.calls[c].Waiting? :: s.calls[c].key in s.flights
  }

  lemma WaitersKept(s: State, ttl: Time, event: Event, t: State)
    requires WaitersServed(s) && Step(s, ttl, event, t)
    ensures WaitersServed(t)
  {
    hide Recent, Find;
  }

  /** An error is that of a fetch of the key that failed. */
  ghost predicate ErrorsFetched(states: seq<State>, events: seq<Event>, i: nat)
    requires |states| == |events| + 1 && i < |states|
  {
    forall c | c in states[i].calls && (states[i].calls[c].Finishing? || states[i].calls[c].Done?) && states[i].calls[c].answer.Failed? ::
      FailedBefore(states, events, i, states[i].calls[c].key)
  }

  lemma FailsStay(states: seq<State>, events: seq<Event>, i: nat)
    requires |states| == |events| + 1
    ensures forall key :: FailedBefore(states, events, i, key) ==> FailedBefore(states, events, i + 1, key)
  {
    forall key | FailedBefore(states, events, i, key) ensures FailedBefore(states, events, i + 1, key) {
      var j, c :| 0 <= j < i && j < |events| && events[j] == FetchFailed(c) && c in states[j].calls && states[j].calls[c] == Fetching(key);
      assert 0 <= j < i + 1 && events[j] == FetchFailed(c);
    }
  }

  lemma ErrorsKept(states: seq<State>, ttl: Time, events: seq<Event>, i: nat)
    requires |states| == |events| + 1 && i < |events| && ErrorsFetched(states, events, i)
    requires Step(states[i], ttl, events[i], states[i + 1])
    ensures ErrorsFetched(states, events, i + 1)
  {
    hide FailedBefore, Recent, Find;
    FailsStay(states, events, i);
    if events[i].FetchFailed? { FailsNow(states, ttl, events, i); }
  }

  lemma {:induction false} RunAttends(states: seq<State>, ttl: Time, events: seq<Event>, i: nat)
    requires IsRun(states, ttl, events) && i < |states|
    ensures WaitersServed(states[i]) && ErrorsFetched(states, events, i)
  {
    hide Step, FailedBefore;
    if i > 0 {
      RunAttends(states, ttl, events, i - 1);
      WaitersKept(states[i - 1], ttl, events[i - 1], states[i]);
      ErrorsKept(states, ttl, events, i - 1);
    }
  }

  lemma FailsNow(states: seq<State>, ttl: Time, events: seq<Event>, i: nat)
    requires |states| == |events| + 1 && i < |events| && events[i].FetchFailed? && Step(states[i], ttl, events[i], states[i + 1])
    ensures FailedBefore(states, events, i + 1, states[i].calls[events[i].caller].key)
  {
  }

  /** An error is returned only after a fetch of the key failed. */
  lemma ErrorsFromFetches(states: seq<State>, ttl: Time, events: seq<Event>, i: nat, c: Caller)
    requires IsRun(states, ttl, events) && i < |states|
    requires c in states[i].calls && states[i].calls[c].Done? && states[i].calls[c].answer.Failed?
    ensures exists j, d :: 0 <= j < i && events[j] == FetchFailed(d) && d in states[j].calls
                           && states[j].calls[d] == Fetching(states[i].calls[c].key)
  {
    hide Step;
    RunAttends(states, ttl, events, i);
    var j, d :| 0 <= j < i && j < |events| && events[j] == FetchFailed(d) && d in states[j].calls
                && states[j].calls[d] == Fetching(states[i].calls[c].key);
    assert 0 <= j < i;
  }

  /**
   Nobody waits without a flight, and all who wait for it go on waiting until its leader finishes: then they have the
   leader's answer, and no other call changes.
   */
  lemma WaitersGetAnswer(states: seq<State>, ttl: Time, events: seq<Event>, i: nat, c: Caller)
    requires IsRun(states, ttl, events) && i < |events| && ttl >= 0
    requires c in states[i].calls && states[i].calls[c].Waiting?
    ensures var key := states[i].calls[c].key;
            && key in states[i].flights && c in states[i + 1].calls
            && var leader := states[i].flights[key];
               && leader in states[i].calls && leader in states[i + 1].calls
               && if events[i] == Finish(leader)
                  then states[i].calls[leader].Finishing? && states[i + 1].calls[c] == Done(key, states[i].calls[leader].answer)
                       && states[i + 1].calls[leader] == states[i + 1].calls[c]
                  else states[i + 1].calls[c] == Waiting(key)
  {
    hide Recent, Find, Spaced, StoresLatest, GoodCall;
    RunKeeps(states, ttl, events, i);
    RunAttends(states, ttl, events, i);
    assert Step(states[i], ttl, events[i], states[i + 1]);
    if events[i].Finish? { FinishLeads(states[i], ttl, events[i].caller); }
  }

  lemma FinishLeads(s: State, ttl: Time, c: Caller)
    requires Invariant(s, ttl)
    ensures c in s.calls && s.calls[c].Finishing? ==> Leads(s, c)
  {
  }

  /** Completed fetches of one key are more than the time to live apart. */
  lemma FetchesSpaced(states: seq<State>, ttl: Time, events: seq<Event>, i: nat, j: nat, k: nat)
    requires IsRun(states, ttl, events) && i < |states| && ttl >= 0
    requires j < k < |states[i].completed| && states[i].completed[j].key == states[i].completed[k].key
    ensures states[i].completed[k].at - states[i].completed[j].at > ttl
  {
    RunKeeps(states, ttl, events, i);
  }

  /** Every body returned was fetched for the key, and was recent when it was checked. */
  lemma AnswersRecent(states: seq<State>, ttl: Time, events: seq<Event>, i: nat, c: Caller)
    requires IsRun(states, ttl, events) && i < |states| && ttl >= 0
    requires c in states[i].calls && states[i].calls[c].Done? && states[i].calls[c].answer.Answer?
    ensures var answer := states[i].calls[c].answer;
            && Completion(states[i].calls[c].key, answer.body, answer.fetchedAt) in states[i].completed
            && 0 <= answer.checkedAt - answer.fetchedAt <= ttl && answer.checkedAt <= states[i].now
  {
    RunKeeps(states, ttl, events, i);
    assert GoodCall(states[i], states[i].calls[c], ttl);
  }
}
