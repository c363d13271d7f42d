/**
 Reports of one query that run at the same time: each takes the guard's lock twice, to check its price and to
 make it the baseline, and others may come in between.
 */
module GuardInterleavings {
  import opened Options
  import opened PriceGuard
  import opened Times

  /** The baseline, the accepted prices that are not made the baseline yet, and how many were accepted. */
  datatype State = State(baseline: Baseline, checked: seq<real>, accepted: nat)

  datatype Event = Check(price: real, now: Time) | Update(i: nat, now: Time)

  /** Guarded prices only, and none that is checked against an expired baseline; no baseline from a refused price. */
  function Next(s: Settings, g: State, event: Event): Option<State> {
    match event
    case Check(price, now) =>
      if price <= 0.0 || Expired(s, g.baseline, now) then None
      else if !Passes(s, Some(g.baseline), price, now) then Some(g)
      else Some(g.(checked := g.checked + [price], accepted := g.accepted + 1))
    case Update(i, now) =>
      if i >= |g.checked| then None
      else Some(State(Baseline(g.checked[i], now), g.checked[..i] + g.checked[i + 1..], g.accepted))
  }

  function Exec(s: Settings, g: State, events: seq<Event>): Option<State>
    decreases |events|
  {
    if events == [] then Some(g)
    else match Next(s, g, events[0]) case None => None case Some(h) => Exec(s, h, events[1..])
  }

  /** The price is within `k` changes by a threshold of another one. */
  predicate Near(first: real, t: real, k: nat, price: real) {
    first * Power(1.0 - t, k) <= price <= first * Power(1.0 + t, k) && price > 0.0
  }

  ghost predicate AllNear(first: real, t: real, g: State) {
    Near(first, t, g.accepted, g.baseline.price) && forall p | p in g.checked :: Near(first, t, g.accepted, p)
  }

  lemma NearGrows(first: real, t: real, k: nat, price: real)
    requires 0.0 <= t < 1.0 && Near(first, t, k, price)
    ensures Near(first, t, k + 1, price)
  {
    hide Power;
    assert Abs(price - price) / price == 0.0;
    DriftStep(first, t, k, price, price);
  }

  lemma CheckKeeps(s: Settings, first: real, g: State, price: real, now: Time)
    requires s.enabled && 0.0 <= s.threshold < 1.0 && AllNear(first, s.threshold, g)
    requires Next(s, g, Check(price, now)).Some?
    ensures AllNear(first, s.threshold, Next(s, g, Check(price, now)).value)
  {
    hide Power, Abs, Near;
    NearPositive(first, s.threshold, g.accepted, g.baseline.price);
    if Passes(s, Some(g.baseline), price, now) {
      PassesRecent(s, g.baseline, price, now);
      NearChange(first, s.threshold, g.accepted, g.baseline.price, price);
      NearGrows(first, s.threshold, g.accepted, g.baseline.price);
      forall p | p in g.checked ensures Near(first, s.threshold, g.accepted + 1, p) {
        NearGrows(first, s.threshold, g.accepted, p);
      }
    }
  }

  lemma NearPositive(first: real, t: real, k: nat, price: real)
    ensures Near(first, t, k, price) ==> price > 0.0
  {
  }

  lemma NearChange(first: real, t: real, k: nat, p: real, q: real)
    requires 0.0 <= t < 1.0 && Near(first, t, k, p) && p > 0.0 && q > 0.0 && Abs(q - p) / p <= t
    ensures Near(first, t, k + 1, q)
  {
    hide Power, Abs;
    DriftStep(first, t, k, p, q);
  }

  /**
   In every interleaving, between expiries and with updates of the baseline on acceptance only, the baseline and
   every price accepted are within as many changes by the threshold of the first baseline as prices were accepted.
   */
  lemma {:induction false} InterleavedDrift(s: Settings, first: real, g: State, events: seq<Event>)
    requires s.enabled && 0.0 <= s.threshold < 1.0 && AllNear(first, s.threshold, g)
    requires Exec(s, g, events).Some?
    ensures AllNear(first, s.threshold, Exec(s, g, events).value)
    decreases |events|
  {
    hide Near, Passes, Expired;
    if events != [] {
      var event := events[0];
      if event.Check? { CheckKeeps(s, first, g, event.price, event.now); }
      InterleavedDrift(s, first, Next(s, g, event).value, events[1..]);
    }
  }

  /** The runs start with a baseline and nothing checked. */
  lemma DriftBoundedInterleaved(s: Settings, first: Baseline, events: seq<Event>)
    requires s.enabled && 0.0 <= s.threshold < 1.0 && first.price > 0.0
    requires Exec(s, State(first, [], 0), events).Some?
    ensures var g := Exec(s, State(first, [], 0), events).value;
            && Near(first.price, s.threshold, g.accepted, g.baseline.price)
            && forall p | p in g.checked :: Near(first.price, s.threshold, g.accepted, p)
  {
    hide Exec;
    NoDrift(first.price, s.threshold);
    InterleavedDrift(s, first.price, State(first, [], 0), events);
  }

  /** The two steps as the guard takes them, in the order in which reports of one query take its lock. */
  method Interleave(guard: PriceGuard, id: QueryId, events: seq<Event>) returns (checked: seq<real>, accepted: nat)
    requires guard.Valid() && guard.enabled && guard.BaselineOf(id).Some?
    requires Exec(guard.SettingsOf(id), State(guard.BaselineOf(id).value, [], 0), events).Some?
    modifies guard`lastPrices, guard`lastUpdateTime
    ensures guard.Valid() && guard.BaselineOf(id).Some?
    ensures State(guard.BaselineOf(id).value, checked, accepted)
         == Exec(guard.SettingsOf(id), State(old(guard.BaselineOf(id).value), [], 0), events).value
  {
    hide Passes, Expired;
    checked, accepted := [], 0;
    ghost var s, first := guard.SettingsOf(id), guard.BaselineOf(id).value;
    for k := 0 to |events|
      invariant guard.Valid() && guard.BaselineOf(id).Some? && guard.SettingsOf(id) == s
      invariant Exec(s, State(guard.BaselineOf(id).value, checked, accepted), events[k..]) == Exec(s, State(first, [], 0), events)
    {
      assert events[k..][0] == events[k] && events[k..][1..] == events[k + 1..];
      match events[k] {
        case Check(price, now) =>
          var ok := guard.ShouldSubmit(id, price, now);
          if ok { checked, accepted := checked + [price], accepted + 1; }
        case Update(i, now) =>
          guard.UpdateLastPrice(id, checked[i], now);
          checked := checked[..i] + checked[i + 1..];
      }
    }
  }
}
