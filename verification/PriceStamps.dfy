/**
 A price with the time of its last update, replaced only by a strictly newer one; what a list of
 updates leaves behind; and the fresh prices of a map of stamps, whatever order they are visited in.
 */
module PriceStamps {
  import opened Bits
  import opened Median
  import opened Options
  import opened Sorting
  import opened Times

  datatype Stamp = Stamp(time: Time, price: uint64)

  const NEW_STAMP := Stamp(ZERO_TIME, 0)

  function Newer(s: Stamp, u: Stamp): Stamp {
    if u.time > s.time then u else s
  }

  /** `PriceTimestamp`. */
  class PriceTimestamp {
    var lastUpdateTime: Time
    var price: uint64

    ghost function Value(): Stamp
      reads this
    {
      Stamp(lastUpdateTime, price)
    }

    constructor ()
      ensures Value() == NEW_STAMP
    {
      lastUpdateTime, price := ZERO_TIME, 0;
    }

    method UpdatePrice(price: uint64, newUpdateTime: Time) returns (updated: bool)
      modifies this
      ensures Value() == Newer(old(Value()), Stamp(newUpdateTime, price))
      ensures updated <==> newUpdateTime > old(lastUpdateTime)
    {
      if newUpdateTime > lastUpdateTime {
        lastUpdateTime := newUpdateTime;
        this.price := price;
        return true;
      }
      return false;
    }

    method GetValidPrice(cutoffTime: Time) returns (r: Option<uint64>)
      ensures r == if lastUpdateTime >= cutoffTime then Some(price) else None
    {
      if lastUpdateTime < cutoffTime { return None; }
      return Some(price);
    }
  }

  predicate IsFresh(s: Stamp, cutoff: Time) {
    s.time >= cutoff
  }

  // ---------------------------------------------------------------- last writer wins

  function Fold(s: Stamp, us: seq<Stamp>): Stamp
    decreases |us|
  {
    if us == [] then s else Fold(Newer(s, us[0]), us[1..])
  }

  /** `r` is the entry at `i`, and the first one with the greatest time. */
  ghost predicate FirstLatestAt(all: seq<Stamp>, r: Stamp, i: nat) {
    && i < |all| && all[i] == r
    && (forall j :: 0 <= j < i ==> all[j].time < r.time)
    && (forall j :: i < j < |all| ==> all[j].time <= r.time)
  }

  ghost predicate FirstLatest(all: seq<Stamp>, r: Stamp) {
    exists i: nat :: FirstLatestAt(all, r, i)
  }

  lemma FirstLatestStep(s: Stamp, us: seq<Stamp>, r: Stamp, i: nat) returns (k: nat)
    requires us != [] && FirstLatestAt([Newer(s, us[0])] + us[1..], r, i)
    ensures FirstLatestAt([s] + us, r, k)
  {
    var all, rest := [s] + us, [Newer(s, us[0])] + us[1..];
    assert forall j :: 2 <= j < |all| ==> all[j] == rest[j - 1];
    assert all[0] == s && all[1] == us[0] && rest[0] == Newer(s, us[0]);
    k := if i > 0 then i + 1 else if us[0].time > s.time then 1 else 0;
  }

  lemma {:induction false} FoldIsFirstLatest(s: Stamp, us: seq<Stamp>)
    ensures FirstLatest([s] + us, Fold(s, us))
    decreases |us|
  {
    hide FirstLatestAt;
    if us == [] {
      OnlyOne(s);
    } else {
      var first := Newer(s, us[0]);
      FoldIsFirstLatest(first, us[1..]);
      var i: nat :| FirstLatestAt([first] + us[1..], Fold(s, us), i);
      var k := FirstLatestStep(s, us, Fold(s, us), i);
    }
  }

  lemma OnlyOne(s: Stamp)
    ensures FirstLatestAt([s] + [], s, 0)
  {
  }

  lemma {:induction false} FoldKeepsLatest(r: Stamp, us: seq<Stamp>)
    requires forall u | u in us :: u.time <= r.time
    ensures Fold(r, us) == r
  {
    if us != [] { FoldKeepsLatest(r, us[1..]); }
  }

  lemma FoldBounds(s: Stamp, us: seq<Stamp>)
    ensures s.time <= Fold(s, us).time && forall u | u in us :: u.time <= Fold(s, us).time
    ensures Fold(s, us) == s || (Fold(s, us) in us && s.time < Fold(s, us).time)
  {
    FoldIsFirstLatest(s, us);
    var all, r := [s] + us, Fold(s, us);
    var i: nat :| FirstLatestAt(all, r, i);
    assert all[0] == s;
    assert forall k :: 0 <= k < |us| ==> us[k] == all[k + 1];
    if i > 0 { assert r == us[i - 1]; }
  }

  /** Applying the same updates again changes nothing. */
  lemma FoldIdempotent(s: Stamp, us: seq<Stamp>)
    ensures Fold(Fold(s, us), us) == Fold(s, us)
  {
    FoldBounds(s, us);
    FoldKeepsLatest(Fold(s, us), us);
  }

  /** Updates with distinct times may arrive in any order. */
  lemma FoldOrderIndependent(s: Stamp, us: seq<Stamp>, vs: seq<Stamp>)
    requires multiset(us) == multiset(vs)
    requires forall a, b | a in us && b in us && a.time == b.time :: a == b
    ensures Fold(s, us) == Fold(s, vs)
  {
    FoldBounds(s, us);
    FoldBounds(s, vs);
    var a, b := Fold(s, us), Fold(s, vs);
    assert forall u :: u in us <==> u in multiset(us);
    assert forall u :: u in vs <==> u in multiset(vs);
    assert a.time == b.time;
  }

  lemma {:induction false} FoldConcat(s: Stamp, us: seq<Stamp>, vs: seq<Stamp>)
    ensures Fold(s, us + vs) == Fold(Fold(s, us), vs)
    decreases |us|
  {
    if us == [] {
      assert us + vs == vs;
    } else {
      assert (us + vs)[1..] == us[1..] + vs;
      FoldConcat(Newer(s, us[0]), us[1..], vs);
    }
  }

  // ---------------------------------------------------------------- maps of stamps

  /** The entry an update finds: a missing one is created first. */
  function Entry<K>(m: map<K, Stamp>, k: K): Stamp {
    if k in m then m[k] else NEW_STAMP
  }

  function Update<K>(m: map<K, Stamp>, k: K, u: Stamp): map<K, Stamp> {
    m[k := Newer(Entry(m, k), u)]
  }

  ghost function Fresh<K>(m: map<K, Stamp>, cutoff: Time): set<K> {
    set k | k in m && IsFresh(m[k], cutoff)
  }

  /** The entries that are fresh, and their number, are those of the cutoff time or later. */
  lemma FreshIs<K(!new)>(m: map<K, Stamp>, cutoff: Time)
    ensures forall k :: k in Fresh(m, cutoff) <==> k in m && m[k].time >= cutoff
    ensures Fresh(m, cutoff) == {} <==> forall k | k in m :: m[k].time < cutoff
  {
    assert Fresh(m, cutoff) == {} <==> forall k | k in m :: k !in Fresh(m, cutoff);
  }

  function PricesOf<K>(m: map<K, Stamp>, order: seq<K>): (prices: seq<int>)
    requires forall k | k in order :: k in m
    ensures |prices| == |order|
    ensures forall i :: 0 <= i < |order| ==> prices[i] == m[order[i]].price
  {
    seq(|order|, i requires 0 <= i < |order| => m[order[i]].price)
  }

  lemma PricesWithout<K>(m: map<K, Stamp>, s: seq<K>, i: nat)
    requires i < |s| && forall k | k in s :: k in m
    ensures forall k | k in s[..i] + s[i + 1..] :: k in m
    ensures multiset(PricesOf(m, s[..i] + s[i + 1..])) == multiset(PricesOf(m, s)) - multiset{m[s[i]].price}
    ensures m[s[i]].price in multiset(PricesOf(m, s))
  {
    var prices := PricesOf(m, s);
    assert PricesOf(m, s[..i] + s[i + 1..]) == prices[..i] + prices[i + 1..];
    RemoveAt(prices, i);
    assert prices[i] in multiset(prices);
  }

  lemma PricesAround<K>(m: map<K, Stamp>, s: seq<K>, i: nat)
    requires i < |s| && forall k | k in s :: k in m
    ensures forall k | k in s[..i] + s[i + 1..] :: k in m
    ensures multiset(PricesOf(m, s)) == multiset(PricesOf(m, s[..i] + s[i + 1..])) + multiset{m[s[i]].price}
  {
    hide PricesOf;
    PricesWithout(m, s, i);
  }

  lemma {:induction false} VisitingOrderIrrelevant<K>(m: map<K, Stamp>, a: seq<K>, b: seq<K>)
    requires multiset(a) == multiset(b) && (forall k | k in a :: k in m) && (forall k | k in b :: k in m)
    ensures multiset(PricesOf(m, a)) == multiset(PricesOf(m, b))
    decreases |a|
  {
    hide *;
    if a == [] {
      NothingLeft(b);
    } else {
      var i := IndexIn(a, b);
      PricesAround(m, a, 0);
      PricesAround(m, b, i);
      RemoveAt(a, 0);
      RemoveAt(b, i);
      VisitingOrderIrrelevant(m, a[..0] + a[1..], b[..i] + b[i + 1..]);
    }
  }

  /** The median of the fresh prices. */
  ghost function IndexPrice<K>(m: map<K, Stamp>, cutoff: Time): Option<int> {
    var order := SomeOrder(Fresh(m, cutoff));
    VisitsKeys(order, Fresh(m, cutoff));
    MedianOf(PricesOf(m, order))
  }

  /** Any visiting order gives the same median and as many prices as there are fresh entries. */
  lemma IndexPriceOfOrder<K>(m: map<K, Stamp>, cutoff: Time, order: seq<K>)
    requires Visits(order, Fresh(m, cutoff))
    ensures forall k | k in order :: k in m
    ensures MedianOf(PricesOf(m, order)) == IndexPrice(m, cutoff)
    ensures |PricesOf(m, order)| == |Fresh(m, cutoff)|
  {
    var other := SomeOrder(Fresh(m, cutoff));
    VisitsKeys(order, Fresh(m, cutoff));
    VisitsKeys(other, Fresh(m, cutoff));
    forall k | k in other ensures k in m {
      assert k in multiset(other);
    }
    VisitingOrderIrrelevant(m, order, other);
    MedianIgnoresOrder(PricesOf(m, order), PricesOf(m, other));
  }

  /**
   The index price in terms of the entries themselves: `order` visits those of the cutoff time or later, and `t` is
   any ascending arrangement of their prices.
   */
  lemma IndexPriceIs<K(!new)>(m: map<K, Stamp>, cutoff: Time, order: seq<K>, t: seq<int>)
    requires Visits(order, set k | k in m && m[k].time >= cutoff)
    requires (forall k | k in order :: k in m) && multiset(t) == multiset(PricesOf(m, order))
    requires forall i, j :: 0 <= i < j < |t| ==> t[i] <= t[j]
    ensures |Fresh(m, cutoff)| == |t| && (IndexPrice(m, cutoff).None? <==> t == [])
    ensures |t| % 2 == 1 ==> IndexPrice(m, cutoff) == Some(t[|t| / 2])
    ensures t != [] && |t| % 2 == 0 ==>
              var p, sum := IndexPrice(m, cutoff).value, t[|t| / 2 - 1] + t[|t| / 2];
              (sum >= 0 ==> 0 <= 2 * p - sum <= 1) && (sum < 0 ==> -1 <= 2 * p - sum <= 0)
  {
    hide IndexPrice, MedianOf;
    FreshIs(m, cutoff);
    assert Fresh(m, cutoff) == set k | k in m && m[k].time >= cutoff;
    IndexPriceOfOrder(m, cutoff, order);
    assert |multiset(t)| == |t|;
    assert |multiset(PricesOf(m, order))| == |PricesOf(m, order)|;
    if t != [] {
      MedianIsMiddle(PricesOf(m, order), t);
    } else {
      NoMedian();
    }
  }

  lemma NoMedian()
    ensures MedianOf([]) == None
  {
  }

  // ---------------------------------------------------------------- visiting a map in code

  /** `prices` are those of `order`, which visits the fresh keys of the map that are not left. */
  ghost predicate Visited<K>(m: map<K, Stamp>, cutoff: Time, left: set<K>, order: seq<K>, prices: seq<int>) {
    && Visits(order, Fresh(m, cutoff) - left)
    && (forall k | k in order :: k in m)
    && prices == PricesOf(m, order)
  }

  lemma VisitStarts<K>(m: map<K, Stamp>, cutoff: Time, left: set<K>)
    requires m.Keys <= left
    ensures Visited(m, cutoff, left, [], [])
  {
    assert Fresh(m, cutoff) - left == {};
  }

  lemma VisitStep<K>(m: map<K, Stamp>, cutoff: Time, left: set<K>, order: seq<K>, prices: seq<int>, k: K)
    requires Visited(m, cutoff, left, order, prices) && k in left
    ensures k in m && IsFresh(m[k], cutoff) ==> Visited(m, cutoff, left - {k}, order + [k], prices + [m[k].price])
    ensures !(k in m && IsFresh(m[k], cutoff)) ==> Visited(m, cutoff, left - {k}, order, prices)
  {
    var before, after := Fresh(m, cutoff) - left, Fresh(m, cutoff) - (left - {k});
    if k in m && IsFresh(m[k], cutoff) {
      assert after == before + {k};
      assert multiset(after) == multiset(before) + multiset{k};
      assert multiset(order + [k]) == multiset(order) + multiset{k};
    } else {
      assert after == before;
    }
  }

  lemma VisitEnds<K>(m: map<K, Stamp>, cutoff: Time, order: seq<K>, prices: seq<int>)
    requires Visited(m, cutoff, {}, order, prices)
    ensures MedianOf(prices) == IndexPrice(m, cutoff) && |prices| == |Fresh(m, cutoff)|
    ensures Visits(order, Fresh(m, cutoff)) && (forall k | k in order :: k in m) && prices == PricesOf(m, order)
  {
    hide MedianOf;
    assert Fresh(m, cutoff) - {} == Fresh(m, cutoff);
    IndexPriceOfOrder(m, cutoff, order);
  }
}
