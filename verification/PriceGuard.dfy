/** The guard against sudden price changes: a submitted price must be close to the last one, unless that is too old. */
module PriceGuard {
  import opened MarketParams
  import opened Options
  import opened Times

  type QueryId = Text

  datatype Baseline = Baseline(price: real, time: Time)

  /** The settings for one query; a threshold of its own replaces the global one. */
  datatype Settings = Settings(enabled: bool, threshold: real, maxAge: Time, updateOnBlocked: bool)

  /** A price, when it is checked and when the baseline is updated. */
  datatype Offer = Offer(price: real, checkedAt: Time, updatedAt: Time)

  function Abs(x: real): real {
    if x >= 0.0 then x else -x
  }

  predicate Expired(s: Settings, b: Baseline, now: Time) {
    s.maxAge > 0 && now - b.time > s.maxAge
  }

  /** The guard lets a price pass: it is off, there is nothing recent to compare with, or the change is small enough. */
  predicate Passes(s: Settings, last: Option<Baseline>, price: real, now: Time) {
    !s.enabled || last.None? || Expired(s, last.value, now) || last.value.price == 0.0
    || Abs(price - last.value.price) / last.value.price <= s.threshold
  }

  /** Prices that are not positive, those of custom queries, are not guarded. */
  predicate Guarded(s: Settings, o: Offer) {
    s.enabled && o.price > 0.0
  }

  predicate Accepted(s: Settings, last: Option<Baseline>, o: Offer) {
    Guarded(s, o) ==> Passes(s, last, o.price, o.checkedAt)
  }

  function After(s: Settings, last: Option<Baseline>, o: Offer): Option<Baseline> {
    if Guarded(s, o) && (Passes(s, last, o.price, o.checkedAt) || s.updateOnBlocked)
    then Some(Baseline(o.price, o.updatedAt)) else last
  }

  // ---------------------------------------------------------------- the code

  class PriceGuard {
    const enabled: bool
    const globalThreshold: real
    const maxAge: Time
    const updateOnBlocked: bool
    var queryThresholds: map<QueryId, real>
    var lastPrices: map<QueryId, real>
    var lastUpdateTime: map<QueryId, Time>

    ghost predicate Valid()
      reads this
    {
      lastPrices.Keys == lastUpdateTime.Keys
    }

    ghost function SettingsOf(id: QueryId): Settings
      reads this
    {
      Settings(enabled, if id in queryThresholds then queryThresholds[id] else globalThreshold, maxAge, updateOnBlocked)
    }

    ghost function BaselineOf(id: QueryId): Option<Baseline>
      requires Valid()
      reads this
    {
      if id in lastPrices then Some(Baseline(lastPrices[id], lastUpdateTime[id])) else None
    }

    constructor (globalThreshold: real, maxAge: Time, enabled: bool, updateOnBlocked: bool)
      ensures Valid() && lastPrices == map[] && queryThresholds == map[]
      ensures this.globalThreshold == globalThreshold && this.maxAge == maxAge
      ensures this.enabled == enabled && this.updateOnBlocked == updateOnBlocked
    {
      this.globalThreshold, this.maxAge, this.enabled, this.updateOnBlocked := globalThreshold, maxAge, enabled, updateOnBlocked;
      queryThresholds, lastPrices, lastUpdateTime := map[], map[], map[];
    }

    method ShouldSubmit(id: QueryId, newPrice: real, now: Time) returns (ok: bool)
      requires Valid()
      ensures ok <==> Passes(SettingsOf(id), BaselineOf(id), newPrice, now)
      ensures SettingsOf(id).threshold == if id in queryThresholds then queryThresholds[id] else globalThreshold
    {
      if !enabled { return true; }
      var threshold := globalThreshold;
      if id in queryThresholds { threshold := queryThresholds[id]; }
      if id !in lastPrices { return true; }
      var lastPrice := lastPrices[id];
      if id in lastUpdateTime && maxAge > 0 {
        var elapsed := now - lastUpdateTime[id];
        if elapsed > maxAge { return true; }
      }
      if lastPrice == 0.0 { return true; }
      var change := Abs(newPrice - lastPrice) / lastPrice;
      return !(change > threshold);
    }

    method UpdateLastPrice(id: QueryId, price: real, now: Time)
      requires Valid()
      modifies this`lastPrices, this`lastUpdateTime
      ensures Valid()
      ensures if enabled then lastPrices == old(lastPrices)[id := price] && lastUpdateTime == old(lastUpdateTime)[id := now]
              else lastPrices == old(lastPrices) && lastUpdateTime == old(lastUpdateTime)
    {
      if !enabled { return; }
      lastPrices := lastPrices[id := price];
      lastUpdateTime := lastUpdateTime[id := now];
    }

    /** The check and the update around a report, without another report of the query in between. */
    method Check(id: QueryId, o: Offer) returns (accepted: bool)
      requires Valid()
      modifies this`lastPrices, this`lastUpdateTime
      ensures Valid()
      ensures accepted <==> Accepted(SettingsOf(id), old(BaselineOf(id)), o)
      ensures BaselineOf(id) == After(SettingsOf(id), old(BaselineOf(id)), o)
      ensures forall other | other != id :: BaselineOf(other) == old(BaselineOf(other))
    {
      if enabled && o.price > 0.0 {
        var shouldSubmit := ShouldSubmit(id, o.price, o.checkedAt);
        if shouldSubmit || updateOnBlocked {
          UpdateLastPrice(id, o.price, o.updatedAt);
        }
        if !shouldSubmit { return false; }
      }
      return true;
    }
  }

  // ---------------------------------------------------------------- runs

  function Run(s: Settings, last: Option<Baseline>, offers: seq<Offer>): Option<Baseline> {
    if offers == [] then last
    else After(s, Run(s, last, offers[..|offers| - 1]), offers[|offers| - 1])
  }

  /** How many guarded prices were accepted. */
  function AcceptedCount(s: Settings, last: Option<Baseline>, offers: seq<Offer>): nat {
    if offers == [] then 0
    else var rest, o := offers[..|offers| - 1], offers[|offers| - 1];
         AcceptedCount(s, last, rest)
         + if Guarded(s, o) && Passes(s, Run(s, last, rest), o.price, o.checkedAt) then 1 else 0
  }

  /** No price is offered after the baseline it is compared with expired. */
  ghost predicate NoExpiry(s: Settings, last: Option<Baseline>, offers: seq<Offer>) {
    forall i | 0 <= i < |offers| ::
      var b := Run(s, last, offers[..i]); b.Some? ==> !Expired(s, b.value, offers[i].checkedAt)
  }

  function Power(x: real, k: nat): real {
    if k == 0 then 1.0 else Power(x, k - 1) * x
  }

  /** An accepted price is within the threshold of the one before. */
  lemma SmallChange(p: real, q: real, t: real)
    requires p > 0.0 && Abs(q - p) / p <= t
    ensures p * (1.0 - t) <= q <= p * (1.0 + t)
  {
    ChangeExactly(p, q, t);
  }

  lemma Monotone(a: real, b: real, p: real)
    requires a <= b && p >= 0.0
    ensures a * p <= b * p
  {
    assert (b - a) * p >= 0.0;
  }

  lemma Compound(low: real, p: real, q: real, x: real)
    requires x >= 0.0
    ensures low <= p && p * x <= q ==> low * x <= q
    ensures p <= low && q <= p * x ==> q <= low * x
  {
    if low <= p { Monotone(low, p, x); }
    if p <= low { Monotone(p, low, x); }
  }

  /**
   Between expiries, with updates of the baseline on acceptance only, the `k`-th accepted price is within
   `k` changes by the threshold of the first baseline.
   */
  lemma {:induction false} DriftBounded(s: Settings, first: Baseline, offers: seq<Offer>)
    requires s.enabled && !s.updateOnBlocked && 0.0 <= s.threshold < 1.0 && first.price > 0.0
    requires NoExpiry(s, Some(first), offers)
    ensures var (b, k) := (Run(s, Some(first), offers), AcceptedCount(s, Some(first), offers));
            b.Some? && first.price * Power(1.0 - s.threshold, k) <= b.value.price <= first.price * Power(1.0 + s.threshold, k)
            && b.value.price > 0.0
  {
    hide Power, Abs, NoExpiry, Passes, Expired;
    if offers != [] {
      var rest, o := offers[..|offers| - 1], offers[|offers| - 1];
      NoExpiryBefore(s, first, offers);
      DriftBounded(s, first, rest);
      var b, k := Run(s, Some(first), rest), AcceptedCount(s, Some(first), rest);
      if Guarded(s, o) && Passes(s, b, o.price, o.checkedAt) {
        PassesRecent(s, b.value, o.price, o.checkedAt);
        DriftStep(first.price, s.threshold, k, b.value.price, o.price);
      }
    } else {
      NoDrift(first.price, s.threshold);
    }
  }

  lemma NoDrift(p: real, t: real)
    ensures p * Power(1.0 - t, 0) == p == p * Power(1.0 + t, 0)
  {
  }

  lemma DriftStep(p0: real, t: real, k: nat, p: real, q: real)
    requires p > 0.0 && 0.0 <= t < 1.0 && p0 * Power(1.0 - t, k) <= p <= p0 * Power(1.0 + t, k) && Abs(q - p) / p <= t
    ensures p0 * Power(1.0 - t, k + 1) <= q <= p0 * Power(1.0 + t, k + 1)
  {
    hide Power, Abs;
    SmallChange(p, q, t);
    PowerStep(1.0 - t, k);
    PowerStep(1.0 + t, k);
    StepBounds(p0, Power(1.0 - t, k), Power(1.0 + t, k), p, q, 1.0 - t, 1.0 + t);
  }

  lemma PowerStep(x: real, k: nat)
    ensures Power(x, k + 1) == Power(x, k) * x
  {
  }

  lemma StepBounds(p0: real, low: real, high: real, p: real, q: real, down: real, up: real)
    requires down >= 0.0 && up >= 0.0 && p0 * low <= p <= p0 * high && p * down <= q <= p * up
    ensures p0 * (low * down) <= q <= p0 * (high * up)
  {
    Compound(p0 * low, p, q, down);
    Compound(p0 * high, p, q, up);
    assert p0 * low * down == p0 * (low * down);
    assert p0 * high * up == p0 * (high * up);
  }

  /** Passing a recent baseline means a small change. */
  lemma PassesRecent(s: Settings, b: Baseline, price: real, now: Time)
    requires s.enabled && Passes(s, Some(b), price, now) && !Expired(s, b, now) && b.price > 0.0
    ensures Abs(price - b.price) / b.price <= s.threshold
  {
  }

  lemma NoExpiryBefore(s: Settings, first: Baseline, offers: seq<Offer>)
    requires offers != [] && NoExpiry(s, Some(first), offers)
    ensures NoExpiry(s, Some(first), offers[..|offers| - 1])
    ensures var b := Run(s, Some(first), offers[..|offers| - 1]);
            b.Some? ==> !Expired(s, b.value, offers[|offers| - 1].checkedAt)
  {
    var rest := offers[..|offers| - 1];
    assert forall i | 0 <= i < |rest| :: rest[..i] == offers[..i];
  }

  /** A guarded price is refused exactly if the baseline is recent, not zero, and too far away. */
  lemma RefusedExactly(s: Settings, last: Option<Baseline>, o: Offer)
    requires last.Some? ==> last.value.price >= 0.0
    ensures !Accepted(s, last, o) <==>
              && Guarded(s, o) && last.Some? && last.value.price > 0.0
              && (s.maxAge <= 0 || o.checkedAt <= last.value.time + s.maxAge)
              && (o.price > last.value.price * (1.0 + s.threshold) || o.price < last.value.price * (1.0 - s.threshold))
  {
    hide Abs;
    if last.Some? && last.value.price > 0.0 { ChangeExactly(last.value.price, o.price, s.threshold); }
  }

  lemma ChangeExactly(p: real, q: real, t: real)
    requires p > 0.0
    ensures Abs(q - p) / p <= t <==> p * (1.0 - t) <= q <= p * (1.0 + t)
  {
    var d := Abs(q - p);
    var change, limit := d / p, t * p;
    assert change * p == d;
    if change <= t { ScaledBelow(change, t, p, d, limit); } else { ScaledAbove(change, t, p, d, limit); }
    SpreadAround(p, t);
  }

  lemma ScaledBelow(c: real, t: real, p: real, d: real, limit: real)
    requires p > 0.0 && c * p == d && limit == t * p && c <= t
    ensures d <= limit
  {
    Monotone(c, t, p);
  }

  lemma ScaledAbove(c: real, t: real, p: real, d: real, limit: real)
    requires p > 0.0 && c * p == d && limit == t * p && c > t
    ensures d > limit
  {
    Exceeds(t, c, p);
  }

  lemma SpreadAround(p: real, t: real)
    ensures p * (1.0 - t) == p - t * p && p * (1.0 + t) == p + t * p
  {
  }

  lemma Exceeds(a: real, b: real, p: real)
    requires a < b && p > 0.0
    ensures a * p < b * p
  {
    assert (b - a) * p > 0.0;
  }

  /** The price is guarded, and the baseline missing, zero, expired or within the threshold of it. */
  ghost predicate IsAccepted(s: Settings, last: Option<Baseline>, o: Offer) {
    && s.enabled && o.price > 0.0
    && (last.Some? && last.value.price > 0.0 && (s.maxAge <= 0 || o.checkedAt <= last.value.time + s.maxAge) ==>
          last.value.price * (1.0 - s.threshold) <= o.price <= last.value.price * (1.0 + s.threshold))
  }

  /** An offer makes its price the baseline exactly if it is accepted, or guarded and the baseline follows refusals too. */
  ghost predicate SetsBaseline(s: Settings, last: Option<Baseline>, o: Offer) {
    IsAccepted(s, last, o) || (s.enabled && o.price > 0.0 && s.updateOnBlocked)
  }

  lemma AfterIs(s: Settings, last: Option<Baseline>, o: Offer)
    requires last.Some? ==> last.value.price >= 0.0
    ensures After(s, last, o) == if SetsBaseline(s, last, o) then Some(Baseline(o.price, o.updatedAt)) else last
    ensures s.enabled && o.price > 0.0 && last.None? ==> After(s, last, o) == Some(Baseline(o.price, o.updatedAt))
  {
    RefusedExactly(s, last, o);
  }

  /** The offer at `i` is the last one that sets the baseline. */
  ghost predicate LastSets(s: Settings, first: Option<Baseline>, offers: seq<Offer>, i: nat) {
    && i < |offers| && SetsBaseline(s, Run(s, first, offers[..i]), offers[i])
    && forall j :: i < j < |offers| ==> !SetsBaseline(s, Run(s, first, offers[..j]), offers[j])
  }

  /** Over every run the baseline is the price and the time of the last offer that set it. */
  lemma {:induction false} BaselineIsLast(s: Settings, first: Option<Baseline>, offers: seq<Offer>, i: nat)
    requires first.Some? ==> first.value.price >= 0.0
    requires LastSets(s, first, offers, i)
    ensures Run(s, first, offers) == Some(Baseline(offers[i].price, offers[i].updatedAt))
    decreases |offers|
  {
    hide After, SetsBaseline;
    var n := |offers| - 1;
    var rest := offers[..n];
    SetPositive(s, first, rest);
    AfterIs(s, Run(s, first, rest), offers[n]);
    if i < n {
      assert !SetsBaseline(s, Run(s, first, offers[..n]), offers[n]);
      assert forall j | 0 <= j < n :: offers[..j] == rest[..j] && offers[j] == rest[j];
      BaselineIsLast(s, first, rest, i);
    }
  }

  /** If none did, it is the first baseline. */
  lemma {:induction false} BaselineStays(s: Settings, first: Option<Baseline>, offers: seq<Offer>)
    requires first.Some? ==> first.value.price >= 0.0
    requires forall i :: 0 <= i < |offers| ==> !SetsBaseline(s, Run(s, first, offers[..i]), offers[i])
    ensures Run(s, first, offers) == first
    decreases |offers|
  {
    hide After, SetsBaseline;
    if offers != [] {
      var n := |offers| - 1;
      var rest := offers[..n];
      SetPositive(s, first, rest);
      AfterIs(s, Run(s, first, rest), offers[n]);
      assert !SetsBaseline(s, Run(s, first, offers[..n]), offers[n]);
      assert forall j | 0 <= j < n :: offers[..j] == rest[..j] && offers[j] == rest[j];
      BaselineStays(s, first, rest);
    }
  }

  lemma {:induction false} SetPositive(s: Settings, first: Option<Baseline>, offers: seq<Offer>)
    requires first.Some? ==> first.value.price >= 0.0
    ensures Run(s, first, offers).Some? ==> Run(s, first, offers).value.price >= 0.0
  {
    hide Passes;
    if offers != [] { SetPositive(s, first, offers[..|offers| - 1]); }
  }

  /** With updates on refusal too, the baseline is simply the last guarded price offered. */
  lemma {:induction false} LastOffered(s: Settings, last: Option<Baseline>, offers: seq<Offer>)
    requires s.enabled && s.updateOnBlocked && forall o | o in offers :: o.price > 0.0
    ensures Run(s, last, offers) ==
            if offers == [] then last
            else Some(Baseline(offers[|offers| - 1].price, offers[|offers| - 1].updatedAt))
  {
    if offers != [] { assert offers[|offers| - 1] in offers; }
  }
}
