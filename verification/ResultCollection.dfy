/**
 The collection of endpoint results for a custom query: every endpoint sends one result into a buffered
 channel at a time of its own, one loop receives until all are there or it is stopped, and another one takes
 what is waiting then.
 */
module ResultCollection {
  import opened AbiNumber
  import opened Options
  import opened QueryMedian
  import opened Sorting

  /** What an endpoint gives: a value, or an error. */
  datatype Result = Result(endpoint: nat, value: Option<real>)

  datatype Query = Query(isMedian: bool, responseType: string, maxSpreadPercent: real, minResponses: int)

  datatype Failure = NoEndpoints | TooFewResponses | NotAggregated
  datatype Outcome = Outcome(raw: seq<Result>, encoded: Option<string>, failure: Option<Failure>)

  function Values(results: seq<Result>): seq<real> {
    if results == [] then []
    else var last := results[|results| - 1];
         Values(results[..|results| - 1]) + if last.value.Some? then [last.value.value] else []
  }

  predicate Enough(all: seq<Result>, query: Query) {
    |Values(all)| >= query.minResponses
  }

  function Finished(raw: seq<Result>, query: Query): Outcome {
    if !Enough(raw, query) then Outcome(raw, None, Some(TooFewResponses))
    else if Values(raw) == [] || !query.isMedian then Outcome(raw, None, Some(NotAggregated))
    else match MedianHexOf(Values(raw), query.responseType, query.maxSpreadPercent)
         case Some(hex) => Outcome(raw, Some(hex), None)
         case None => Outcome(raw, None, Some(NotAggregated))
  }

  // ---------------------------------------------------------------- the state machine

  datatype Phase = Collecting | Draining | Done

  /** The endpoints that have not sent yet, what waits in the channel, and what was received. */
  datatype State = State(left: set<nat>, waiting: seq<Result>, all: seq<Result>, phase: Phase)

  datatype Event =
    | Send(endpoint: nat)
    | Receive
    | FetchesOver
    | Stop
    | NothingWaiting

  function Below(n: nat): (s: set<nat>)
    ensures forall i :: i in s <==> 0 <= i < n
  {
    if n == 0 then {} else Below(n - 1) + {n - 1}
  }

  function Start(results: seq<Result>): State {
    State(Below(|results|), [], [], Collecting)
  }

  /** The first loop ends when all endpoints were heard: at once if enough of them succeeded. */
  function PhaseAfter(all: seq<Result>, results: seq<Result>, query: Query, phase: Phase): Phase {
    if phase.Collecting? && |all| == |results| then (if Enough(all, query) then Done else Draining) else phase
  }

  /** The state after an event; none if the event is not possible. */
  function Next(results: seq<Result>, query: Query, s: State, event: Event): Option<State> {
    match event
    case Send(i) =>
      if i in s.left && i < |results| then Some(s.(left := s.left - {i}, waiting := s.waiting + [results[i]])) else None
    case Receive =>
      if !s.phase.Done? && s.waiting != [] then
        var all := s.all + [s.waiting[0]];
        Some(State(s.left, s.waiting[1..], all, PhaseAfter(all, results, query, s.phase)))
      else None
    case FetchesOver => if s.phase.Collecting? then Some(s) else None
    case Stop => if s.phase.Collecting? then Some(s.(phase := Draining)) else None
    case NothingWaiting => if s.phase.Draining? && s.waiting == [] then Some(s.(phase := Done)) else None
  }

  function Exec(results: seq<Result>, query: Query, s: State, events: seq<Event>): Option<State>
    decreases |events|
  {
    if events == [] then Some(s)
    else match Next(results, query, s, events[0]) case None => None case Some(t) => Exec(results, query, t, events[1..])
  }

  // ---------------------------------------------------------------- conservation

  /** The results of some of the endpoints. */
  function Pick(results: seq<Result>, left: set<nat>): seq<Result> {
    if results == [] then []
    else Pick(results[..|results| - 1], left) + if |results| - 1 in left then [results[|results| - 1]] else []
  }

  lemma {:induction false} PickWithout(results: seq<Result>, left: set<nat>, i: nat)
    requires i < |results| && i in left
    ensures multiset(Pick(results, left)) == multiset(Pick(results, left - {i})) + multiset{results[i]}
  {
    var rest := results[..|results| - 1];
    if i == |results| - 1 {
      PickOthers(rest, left, i);
    } else {
      PickWithout(rest, left, i);
    }
  }

  lemma {:induction false} PickOthers(results: seq<Result>, left: set<nat>, i: nat)
    requires i >= |results|
    ensures Pick(results, left - {i}) == Pick(results, left)
  {
    if results != [] { PickOthers(results[..|results| - 1], left, i); }
  }

  lemma {:induction false} PickAll(results: seq<Result>, left: set<nat>)
    requires forall i :: 0 <= i < |results| ==> i in left
    ensures Pick(results, left) == results
  {
    if results != [] {
      PickAll(results[..|results| - 1], left);
      assert results == results[..|results| - 1] + [results[|results| - 1]];
    }
  }

  /** Every result is with its endpoint, in the channel, or received: nothing is lost and nothing comes twice. */
  ghost predicate Conserved(results: seq<Result>, s: State) {
    && multiset(s.all) + multiset(s.waiting) + multiset(Pick(results, s.left)) == multiset(results)
    && (s.phase.Collecting? ==> |s.all| < |results|)
  }

  lemma NextConserves(results: seq<Result>, query: Query, s: State, event: Event)
    requires Conserved(results, s) && Next(results, query, s, event).Some?
    ensures Conserved(results, Next(results, query, s, event).value)
  {
    hide Pick, Enough;
    match event
    case Send(i) => PickWithout(results, s.left, i);
    case Receive =>
      ReceiveConserves(s.all, s.waiting);
      ReceivedFew(results, Next(results, query, s, event).value);
    case _ =>
  }

  lemma ReceiveConserves<T>(all: seq<T>, waiting: seq<T>)
    requires waiting != []
    ensures multiset(all + [waiting[0]]) + multiset(waiting[1..]) == multiset(all) + multiset(waiting)
  {
    assert waiting == [waiting[0]] + waiting[1..];
  }

  lemma ReceivedFew(results: seq<Result>, s: State)
    requires multiset(s.all) + multiset(s.waiting) + multiset(Pick(results, s.left)) == multiset(results)
    ensures |s.all| <= |results|
  {
    hide Pick;
    assert |multiset(s.all)| == |s.all| && |multiset(results)| == |results|;
    assert |multiset(s.all) + multiset(s.waiting) + multiset(Pick(results, s.left))| >= |multiset(s.all)|;
  }

  lemma {:induction false} ExecConserves(results: seq<Result>, query: Query, s: State, events: seq<Event>)
    requires Conserved(results, s) && Exec(results, query, s, events).Some?
    ensures Conserved(results, Exec(results, query, s, events).value)
    decreases |events|
  {
    hide Conserved, Next;
    if events != [] {
      NextConserves(results, query, s, events[0]);
      ExecConserves(results, query, Next(results, query, s, events[0]).value, events[1..]);
    }
  }

  /** In every reachable state what was received is a sub-multiset of one result per endpoint. */
  lemma ReceivedFromEndpoints(results: seq<Result>, query: Query, events: seq<Event>)
    requires results != [] && Exec(results, query, Start(results), events).Some?
    ensures Conserved(results, Exec(results, query, Start(results), events).value)
    ensures multiset(Exec(results, query, Start(results), events).value.all) <= multiset(results)
  {
    hide Next, Exec, Start, Pick;
    StartConserves(results);
    ExecConserves(results, query, Start(results), events);
  }

  lemma StartConserves(results: seq<Result>)
    requires results != []
    ensures Conserved(results, Start(results))
  {
    PickAll(results, Start(results).left);
  }

  /** When a collection ends nothing waits that could still be received. */
  lemma EndsDrained(results: seq<Result>, query: Query, s: State, event: Event)
    requires Conserved(results, s) && Next(results, query, s, event).Some?
    requires !s.phase.Done? && Next(results, query, s, event).value.phase.Done?
    ensures Next(results, query, s, event).value.waiting == []
  {
    hide Pick, Enough;
    NextConserves(results, query, s, event);
    var t := Next(results, query, s, event).value;
    assert |multiset(t.all) + multiset(t.waiting) + multiset(Pick(results, t.left))| == |multiset(results)|;
    assert |multiset(t.waiting)| == |t.waiting| && |multiset(t.all)| == |t.all| && |multiset(results)| == |results|;
  }

  // ---------------------------------------------------------------- without a stop

  ghost predicate AllHeard(results: seq<Result>, s: State) {
    !s.phase.Collecting? ==> |s.all| >= |results|
  }

  lemma {:induction false} ExecHearsAll(results: seq<Result>, query: Query, s: State, events: seq<Event>)
    requires AllHeard(results, s) && Stop !in events && Exec(results, query, s, events).Some?
    ensures AllHeard(results, Exec(results, query, s, events).value)
    decreases |events|
  {
    if events != [] {
      assert events[0] in events;
      ExecHearsAll(results, query, Next(results, query, s, events[0]).value, events[1..]);
    }
  }

  /** Unless it is stopped the collection ends with the result of every endpoint, and the value does not depend on the order. */
  lemma AllHeardWithoutStop(results: seq<Result>, query: Query, events: seq<Event>)
    requires results != [] && Exec(results, query, Start(results), events).Some? && Stop !in events
    requires Exec(results, query, Start(results), events).value.phase.Done?
    ensures var all := Exec(results, query, Start(results), events).value.all;
            multiset(all) == multiset(results) && Finished(all, query).encoded == Finished(results, query).encoded
  {
    hide Exec, Finished, Pick;
    ReceivedFromEndpoints(results, query, events);
    ExecHearsAll(results, query, Start(results), events);
    var all := Exec(results, query, Start(results), events).value.all;
    assert |multiset(all)| == |all| && |multiset(results)| == |results|;
    SameCount(multiset(all), multiset(results));
    ValuesIgnoreOrder(all, results);
    ValueIgnoresArrivalOrder(all, results, query);
  }

  lemma SameCount<T>(a: multiset<T>, b: multiset<T>)
    requires a <= b && |a| >= |b|
    ensures a == b
  {
    assert b == a + (b - a);
    assert |b| == |a| + |b - a|;
    assert b - a == multiset{};
  }

  // ---------------------------------------------------------------- values

  lemma AppendResult(results: seq<Result>, r: Result)
    ensures Values(results + [r]) == Values(results) + if r.value.Some? then [r.value.value] else []
  {
    assert (results + [r])[..|results|] == results;
  }

  lemma {:induction false} ValuesConcat(a: seq<Result>, b: seq<Result>)
    ensures Values(a + b) == Values(a) + Values(b)
  {
    if b == [] {
      assert a + b == a;
    } else {
      var last, rest := b[|b| - 1], b[..|b| - 1];
      assert a + b == (a + rest) + [last];
      assert b == rest + [last];
      ValuesConcat(a, rest);
      AppendResult(a + rest, last);
      AppendResult(rest, last);
    }
  }

  lemma ValuesAround(s: seq<Result>, i: nat)
    requires i < |s|
    ensures multiset(Values(s)) == multiset(Values([s[i]])) + multiset(Values(s[..i] + s[i + 1..]))
  {
    hide Values;
    var before, after := s[..i], s[i + 1..];
    assert s == before + ([s[i]] + after);
    ValuesConcat(before, [s[i]] + after);
    ValuesConcat([s[i]], after);
    ValuesConcat(before, after);
  }

  lemma {:induction false} ValuesIgnoreOrder(raw: seq<Result>, other: seq<Result>)
    requires multiset(raw) == multiset(other)
    ensures multiset(Values(raw)) == multiset(Values(other))
    decreases |raw|
  {
    hide Values;
    if raw == [] {
      NothingLeft(other);
    } else {
      var i := IndexIn(raw, other);
      RemoveAt(raw, 0);
      RemoveAt(other, i);
      ValuesIgnoreOrder(raw[..0] + raw[1..], other[..i] + other[i + 1..]);
      ValuesAround(raw, 0);
      ValuesAround(other, i);
    }
  }

  /** The encoded value depends only on which values succeeded, not on the order of arrival or on the failures. */
  lemma ValueIgnoresArrivalOrder(raw: seq<Result>, other: seq<Result>, query: Query)
    requires multiset(Values(raw)) == multiset(Values(other))
    ensures Finished(raw, query).encoded == Finished(other, query).encoded
  {
    hide MedianHexOf, Values;
    assert |multiset(Values(raw))| == |Values(raw)| && |multiset(Values(other))| == |Values(other)|;
    MedianHexIgnoresOrder(Values(raw), Values(other), query.responseType, query.maxSpreadPercent);
  }

  /** The number to encode: a single value, or the middle of several. */
  function Central(values: seq<real>): real
    requires values != []
  {
    if |values| == 1 then values[0] else
      SortSorts(AtMost, values);
      Middle(Sort(AtMost, values))
  }

  /** The middle value in any ascending arrangement, or half the sum of the two middle ones. */
  lemma CentralIs(values: seq<real>, t: seq<real>)
    requires values != [] && multiset(t) == multiset(values) && forall i, j :: 0 <= i < j < |t| ==> t[i] <= t[j]
    ensures |t| == |values|
    ensures |values| % 2 == 1 ==> Central(values) == t[|values| / 2]
    ensures |values| % 2 == 0 ==> 2.0 * Central(values) == t[|values| / 2 - 1] + t[|values| / 2]
  {
    hide Sort, Middle;
    MiddleIs(values, t);
    assert |values| == 1 ==> values[0] in multiset(t);
  }

  /** The greatest value is within the allowed percentage of the least; a single value always is. */
  ghost predicate Close(values: seq<real>, maxSpreadPercent: real) {
    |values| > 1 ==>
      forall low, high | low in values && high in values :: low > 0.0 ==> (high - low) / low * 100.0 <= maxSpreadPercent
  }

  lemma SpreadIsClose(values: seq<real>, maxSpreadPercent: real)
    requires |values| > 1 && AllPositive(values)
    ensures var sorted := Sort(AtMost, values);
            |sorted| == |values| && sorted[0] > 0.0
            && (SpreadPercent(sorted) <= maxSpreadPercent <==> Close(values, maxSpreadPercent))
  {
    hide Sort, IsSorted, Middle;
    SortedPositive(values);
    MiddleBetween(values);
    SortSorts(AtMost, values);
    var sorted := Sort(AtMost, values);
    var least, most := sorted[0], sorted[|sorted| - 1];
    assert least in multiset(sorted) && most in multiset(sorted);
    assert least in values && most in values;
    if SpreadPercent(sorted) <= maxSpreadPercent {
      forall low, high | low in values && high in values && low > 0.0
        ensures (high - low) / low * 100.0 <= maxSpreadPercent
      {
        if low <= high { NarrowerSpread(least, most, low, high); } else { NoSpread(least, most, low, high); }
      }
    }
  }

  lemma NarrowerSpread(least: real, most: real, low: real, high: real)
    requires 0.0 < least <= low <= high <= most
    ensures (high - low) / low * 100.0 <= (most - least) / least * 100.0
  {
    Ratio(high, most, low, least);
    Relative(high, low);
    Relative(most, least);
  }

  lemma NoSpread(least: real, most: real, low: real, high: real)
    requires 0.0 < least <= most && low > high && low > 0.0
    ensures (high - low) / low * 100.0 <= (most - least) / least * 100.0
  {
    var a, b := (high - low) / low, (most - least) / least;
    assert a * low == high - low && b * least == most - least;
    if a > 0.0 { GrowsStrictly(0.0, a, low); }
    if b < 0.0 { GrowsStrictly(b, 0.0, least); }
  }

  lemma Relative(high: real, low: real)
    requires low > 0.0
    ensures (high - low) / low == high / low - 1.0
  {
    var a, b := high / low, (high - low) / low;
    assert a * low == high && b * low == high - low;
    if a - 1.0 < b { GrowsStrictly(a - 1.0, b, low); }
    if b < a - 1.0 { GrowsStrictly(b, a - 1.0, low); }
  }

  lemma Ratio(high: real, most: real, low: real, least: real)
    requires 0.0 < high <= most && 0.0 < least <= low
    ensures high / low <= most / least
  {
    var a, b := high / low, most / least;
    assert a * low == high && b * least == most;
    assert b > 0.0;
    Grows(b, least, low);
    if a > b { GrowsStrictly(b, a, low); }
  }

  lemma Grows(b: real, x: real, y: real)
    requires b >= 0.0 && x <= y
    ensures b * x <= b * y
  {
    assert b * (y - x) >= 0.0;
  }

  lemma GrowsStrictly(a: real, b: real, x: real)
    requires a < b && x > 0.0
    ensures a * x < b * x
  {
    assert (b - a) * x > 0.0;
  }

  lemma ReachableValues(results: seq<Result>, s: State)
    requires Conserved(results, s)
    ensures multiset(Values(s.all)) <= multiset(Values(results))
  {
    hide Values, Pick;
    var rest := s.waiting + Pick(results, s.left);
    assert multiset(s.all + rest) == multiset(results);
    ValuesIgnoreOrder(s.all + rest, results);
    ValuesConcat(s.all, rest);
  }

  /**
   What a collection that ended returns: a value exactly if enough endpoints succeeded, with positive values close
   to each other of which the central one can be encoded; and it is that encoding.
   */
  lemma ReturnedValue(results: seq<Result>, query: Query, events: seq<Event>)
    requires results != [] && Exec(results, query, Start(results), events).Some?
    ensures var all := Exec(results, query, Start(results), events).value.all;
            var values, encoded := Values(all), Finished(all, query).encoded;
            && multiset(values) <= multiset(Values(results)) && Finished(all, query).raw == all
            && (Finished(all, query).failure == Some(TooFewResponses) <==> |values| < query.minResponses)
            && (Finished(all, query).failure.None? <==> encoded.Some?)
            && (encoded.Some? <==>
                  && |values| >= query.minResponses && values != [] && query.isMedian
                  && AllPositive(values) && Close(values, query.maxSpreadPercent)
                  && AbiEncoding(Central(values), query.responseType).Some?)
            && (encoded.Some? ==> encoded == AbiEncoding(Central(values), query.responseType))
  {
    hide Exec, Pick, Values, AbiEncoding, Sort, Close, Start;
    ReceivedFromEndpoints(results, query, events);
    var s := Exec(results, query, Start(results), events).value;
    ReachableValues(results, s);
    var values := Values(s.all);
    if |values| > 1 && AllPositive(values) { SpreadIsClose(values, query.maxSpreadPercent); }
    SingleIsClose(values, query.maxSpreadPercent);
  }

  lemma SingleIsClose(values: seq<real>, maxSpreadPercent: real)
    ensures |values| <= 1 ==> Close(values, maxSpreadPercent)
  {
  }

  // ---------------------------------------------------------------- the code

  method Finalize(raw: seq<Result>, values: seq<real>, query: Query) returns (r: Outcome)
    requires values == Values(raw) && |values| >= query.minResponses
    ensures r == Finished(raw, query)
  {
    if |values| == 0 || !query.isMedian { return Outcome(raw, None, Some(NotAggregated)); }
    var hex := MedianInHex(values, query.responseType, query.maxSpreadPercent);
    r := Outcome(raw, hex, if hex.Some? then None else Some(NotAggregated));
  }

  /** A collection that ended received nothing more. */
  lemma {:induction false} DoneStays(results: seq<Result>, query: Query, s: State, events: seq<Event>)
    requires s.phase.Done? && Exec(results, query, s, events).Some?
    ensures Exec(results, query, s, events).value.all == s.all
    decreases |events|
  {
    if events != [] { DoneStays(results, query, Next(results, query, s, events[0]).value, events[1..]); }
  }

  /** A collection that has not ended goes on with the next event. */
  lemma GoesOn(results: seq<Result>, query: Query, s: State, events: seq<Event>, k: nat)
    requires k <= |events| && !s.phase.Done?
    requires Exec(results, query, s, events[k..]).Some? && Exec(results, query, s, events[k..]).value.phase.Done?
    ensures k < |events| && Next(results, query, s, events[k]).Some?
    ensures Exec(results, query, Next(results, query, s, events[k]).value, events[k + 1..])
         == Exec(results, query, s, events[k..])
  {
    hide Next;
    assert events[k..] != [];
    assert events[k..][1..] == events[k + 1..];
  }

  ghost predicate Ends(results: seq<Result>, query: Query, s: State, events: seq<Event>) {
    Exec(results, query, s, events).Some? && Exec(results, query, s, events).value.phase.Done?
  }

  function PhaseOf(stopped: bool, all: seq<Result>, results: seq<Result>, query: Query): Phase {
    if stopped then Draining else PhaseAfter(all, results, query, Collecting)
  }

  /** The first loop. */
  method Collect(results: seq<Result>, query: Query, events: seq<Event>)
    returns (waiting: seq<Result>, all: seq<Result>, successful: seq<real>, stopped: bool, k: nat, ghost left: set<nat>)
    requires results != [] && Ends(results, query, Start(results), events)
    ensures k <= |events| && successful == Values(all) && (!stopped ==> |all| == |results|) && |all| <= |results|
    ensures Exec(results, query, State(left, waiting, all, PhaseOf(stopped, all, results, query)), events[k..])
         == Exec(results, query, Start(results), events)
  {
    hide Values, Enough;
    waiting, all, successful, stopped, k, left := [], [], [], false, 0, Start(results).left;
    var pending: nat := |results|;
    NothingYet();
    assert events[0..] == events;
    while pending > 0
      invariant k <= |events| && |all| + pending == |results| && successful == Values(all) && !stopped
      invariant Exec(results, query, State(left, waiting, all, PhaseOf(false, all, results, query)), events[k..])
             == Exec(results, query, Start(results), events)
      decreases |events| - k
    {
      GoesOn(results, query, State(left, waiting, all, Collecting), events, k);
      match events[k] {
        case Send(i) =>
          waiting, left := waiting + [results[i]], left - {i};
        case Receive =>
          var result := waiting[0];
          AppendResult(all, result);
          waiting, pending, all := waiting[1..], pending - 1, all + [result];
          if result.value.Some? { successful := successful + [result.value.value]; }
        case FetchesOver =>
        case Stop =>
          stopped, k := true, k + 1;
          return;
        case NothingWaiting =>
          assert false;
      }
      k := k + 1;
    }
  }

  lemma NothingYet()
    ensures Values([]) == []
  {
  }

  /** The second loop: the results that are waiting are taken too. */
  method Drain(results: seq<Result>, query: Query, events: seq<Event>, k0: nat,
               waiting0: seq<Result>, all0: seq<Result>, successful0: seq<real>, ghost left0: set<nat>)
    returns (all: seq<Result>, successful: seq<real>)
    requires k0 <= |events| && successful0 == Values(all0)
    requires Ends(results, query, State(left0, waiting0, all0, Draining), events[k0..])
    ensures all == Exec(results, query, State(left0, waiting0, all0, Draining), events[k0..]).value.all
    ensures successful == Values(all)
  {
    hide Values, Enough;
    ghost var end := Exec(results, query, State(left0, waiting0, all0, Draining), events[k0..]);
    ghost var left := left0;
    var waiting, k := waiting0, k0;
    all, successful := all0, successful0;
    while true
      invariant k <= |events| && successful == Values(all)
      invariant Exec(results, query, State(left, waiting, all, Draining), events[k..]) == end
      decreases |events| - k
    {
      GoesOn(results, query, State(left, waiting, all, Draining), events, k);
      match events[k] {
        case Send(i) =>
          waiting, left := waiting + [results[i]], left - {i};
        case Receive =>
          var result := waiting[0];
          AppendResult(all, result);
          waiting, all := waiting[1..], all + [result];
          if result.value.Some? { successful := successful + [result.value.value]; }
        case NothingWaiting =>
          DoneStays(results, query, State(left, waiting, all, Done), events[k + 1..]);
          return;
        case _ =>
          assert false;
      }
      k := k + 1;
    }
  }

  /**
   `FetchPrice`. The events are those of a run that ended: sends of the endpoints, and what the two loops find when
   they select, in the order in which they happen.
   */
  method FetchPrice(results: seq<Result>, query: Query, events: seq<Event>) returns (r: Outcome)
    requires results != [] ==> Ends(results, query, Start(results), events)
    ensures results == [] ==> r == Outcome([], None, Some(NoEndpoints))
    ensures results != [] ==> r == Finished(Exec(results, query, Start(results), events).value.all, query)
  {
    hide Finished, Exec, Start, Values;
    if |results| == 0 { return Outcome([], None, Some(NoEndpoints)); }
    var waiting, all, successful, stopped, k, left := Collect(results, query, events);
    if !stopped && |successful| >= query.minResponses {
      DoneStays(results, query, State(left, waiting, all, Done), events[k..]);
      r := Finalize(all, successful, query);
      return;
    }
    all, successful := Drain(results, query, events, k, waiting, all, successful, left);
    if |successful| >= query.minResponses {
      r := Finalize(all, successful, query);
    } else {
      r := Outcome(all, None, Some(TooFewResponses));
      TooFew(all, query);
    }
  }

  lemma TooFew(all: seq<Result>, query: Query)
    requires !Enough(all, query)
    ensures Finished(all, query) == Outcome(all, None, Some(TooFewResponses))
  {
  }
}
