/** The ring of markets that a price fetcher queries in turn, and the fairness of its task loops. */
module MarketRing {
  import opened Arith
  import opened MarketParams
  import Median
  import opened Sorting

  // ---------------------------------------------------------------- sorted keys

  ghost predicate IsListing(ids: seq<MarketId>, keys: set<MarketId>) {
    Visits(ids, keys) && IsSorted<int>(Median.AtMost, ids)
  }

  /** The keys of a map in increasing order. */
  method GetSortedKeys(keys: set<MarketId>) returns (ids: seq<MarketId>)
    ensures IsListing(ids, keys)
    ensures (forall k :: k in ids <==> k in keys) && forall i, j :: 0 <= i < j < |ids| ==> ids[i] < ids[j]
  {
    hide IsSorted, Sort;
    var list := ListElements(keys);
    SortSorts<int>(Median.AtMost, list);
    var sorted := Sort<int>(Median.AtMost, list);
    forall i | 0 <= i < |sorted| ensures sorted[i] in keys {
      assert sorted[i] in multiset(sorted);
    }
    ids := sorted;
    assert multiset(ids) == multiset(keys);
    ListingAscends(ids, keys);
  }

  lemma ListingAscends(ids: seq<MarketId>, keys: set<MarketId>)
    requires IsListing(ids, keys)
    ensures (forall k :: k in ids <==> k in keys) && forall i, j :: 0 <= i < j < |ids| ==> ids[i] < ids[j]
  {
    ListingDistinct(ids, keys);
    forall i, j | 0 <= i < j < |ids| ensures ids[i] < ids[j] {
      assert Median.AtMost(ids[i], ids[j]);
    }
  }

  lemma ListingUnique(a: seq<MarketId>, b: seq<MarketId>, keys: set<MarketId>)
    requires IsListing(a, keys) && IsListing(b, keys)
    ensures a == b
  {
    SortedUnique<int>(Median.AtMost, a, b);
  }

  lemma ListingDistinct(ids: seq<MarketId>, keys: set<MarketId>)
    requires IsListing(ids, keys)
    ensures forall k :: k in ids <==> k in keys
    ensures |ids| == |keys|
    ensures forall i, j :: 0 <= i < j < |ids| ==> ids[i] != ids[j]
  {
    VisitsKeys(ids, keys);
    forall i, j | 0 <= i < j < |ids| ensures ids[i] != ids[j] {
      if ids[i] == ids[j] { OccursTwice(ids, i, j); }
    }
  }

  lemma OccursTwice(ids: seq<MarketId>, i: nat, j: nat)
    requires i < j < |ids| && ids[i] == ids[j]
    ensures multiset(ids)[ids[i]] >= 2
  {
    assert ids == ids[..i] + [ids[i]] + ids[i + 1..j] + [ids[j]] + ids[j + 1..];
  }

  // ---------------------------------------------------------------- the ring

  /** `lists.Ring`: its values in order, and the one the pointer is at. */
  datatype Ring = Ring(values: seq<MarketId>, at: nat) {
    predicate Valid() {
      values == [] || at < |values|
    }
  }

  function Position(ring: Ring, i: nat): (k: nat)
    requires ring.values != []
    ensures k < |ring.values|
  {
    (ring.at + i) % |ring.values|
  }

  /** The values met in `n` steps. */
  function Batch(ring: Ring, n: nat): seq<MarketId>
    requires n > 0 ==> ring.values != []
  {
    seq(n, i requires 0 <= i < n => ring.values[Position(ring, i)])
  }

  function Advanced(ring: Ring, n: nat): Ring
    requires n > 0 ==> ring.values != []
  {
    if n == 0 then ring else Ring(ring.values, Position(ring, n))
  }

  lemma BatchStep(ring: Ring, n: nat)
    requires ring.values != [] && ring.Valid()
    ensures Batch(ring, n + 1) == Batch(ring, n) + [ring.values[Advanced(ring, n).at]]
    ensures Advanced(ring, n + 1).at == (Advanced(ring, n).at + 1) % |ring.values|
  {
    var size := |ring.values|;
    ModAbsorb(ring.at + n, 1, size);
    if n == 0 { DivModUnique(ring.at, size, 0, ring.at); }
  }

  /** `n` queries, moving the pointer each time. */
  method Take(ring0: Ring, n: nat) returns (markets: seq<MarketId>, ring: Ring)
    requires ring0.Valid() && (n > 0 ==> ring0.values != [])
    ensures markets == Batch(ring0, n) && ring == Advanced(ring0, n)
    ensures |markets| == n && forall i :: 0 <= i < n ==> markets[i] == ring0.values[(ring0.at + i) % |ring0.values|]
    ensures ring.values == ring0.values && (n > 0 ==> ring.at == (ring0.at + n) % |ring0.values|) && (n == 0 ==> ring == ring0)
  {
    ring, markets := ring0, [];
    for i := 0 to n
      invariant markets == Batch(ring0, i) && ring == Advanced(ring0, i)
    {
      BatchStep(ring0, i);
      markets := markets + [ring.values[ring.at]];
      ring := Ring(ring.values, (ring.at + 1) % |ring.values|);
    }
  }

  /** A new ring has one place for each market; after as many steps the pointer is back at the first. */
  method NewRing(ids: seq<MarketId>) returns (ring: Ring)
    ensures ring == Ring(ids, 0)
  {
    var values: seq<MarketId> := seq(|ids|, _ => 0);
    var at := 0;
    for i := 0 to |ids|
      invariant |values| == |ids| && values[..i] == ids[..i]
      invariant at == if i == |ids| then 0 else i
    {
      values := values[at := ids[i]];
      if i + 1 == |ids| { DivModUnique(i + 1, |ids|, 1, 0); } else { DivModUnique(i + 1, |ids|, 0, i + 1); }
      at := (at + 1) % |ids|;
      assert values[..i + 1] == ids[..i + 1];
    }
    assert values == ids by { assert values[..|ids|] == ids[..|ids|]; }
    ring := Ring(values, at);
  }

  // ---------------------------------------------------------------- fairness

  /** The markets queried in `k` task loops of `n` queries each. */
  function Rounds(ring: Ring, n: nat, k: nat): seq<MarketId>
    requires n > 0 ==> ring.values != []
    decreases k
  {
    if k == 0 then [] else Batch(ring, n) + Rounds(Advanced(ring, n), n, k - 1)
  }

  lemma PositionShift(ring: Ring, n: nat, i: nat)
    requires ring.values != [] && ring.Valid()
    ensures Advanced(ring, n).Valid() && Position(Advanced(ring, n), i) == Position(ring, n + i)
  {
    var x, d := ring.at + n, |ring.values|;
    if n > 0 {
      ModAbsorb(x, i, d);
    }
  }

  lemma BatchConcat(ring: Ring, n: nat, m: nat)
    requires ring.values != [] && ring.Valid()
    ensures Batch(ring, n) + Batch(Advanced(ring, n), m) == Batch(ring, n + m)
    ensures Advanced(ring, n).Valid()
  {
    hide Position;
    PositionShift(ring, n, 0);
    forall i: nat | i < m ensures Position(Advanced(ring, n), i) == Position(ring, n + i) {
      PositionShift(ring, n, i);
    }
  }

  lemma {:induction false} RoundsAreOneBatch(ring: Ring, n: nat, k: nat)
    requires ring.values != [] && ring.Valid()
    ensures Rounds(ring, n, k) == Batch(ring, n * k)
    decreases k
  {
    hide Batch;
    if k > 0 {
      BatchConcat(ring, n, n * (k - 1));
      RoundsAreOneBatch(Advanced(ring, n), n, k - 1);
      assert n * k == n + n * (k - 1);
    } else {
      assert n * k == 0;
      EmptyBatch(ring);
    }
  }

  lemma EmptyBatch(ring: Ring)
    ensures Batch(ring, 0) == []
  {
  }

  /** How far ahead of the pointer a place is. */
  function Ahead(ring: Ring, j: nat): nat
    requires ring.Valid() && j < |ring.values|
  {
    if j >= ring.at then j - ring.at else j + |ring.values| - ring.at
  }

  lemma MeetsAt(ring: Ring, j: nat, x: nat)
    requires ring.Valid() && j < |ring.values|
    ensures Position(ring, x) == j <==> x % |ring.values| == Ahead(ring, j)
  {
    var d := |ring.values|;
    var q, r := x / d, x % d;
    if ring.at + r < d {
      DivModUnique(ring.at + x, d, q, ring.at + r);
    } else {
      assert ring.at + x == d * (q + 1) + (ring.at + r - d);
      DivModUnique(ring.at + x, d, q + 1, ring.at + r - d);
    }
  }

  /** In `x` steps the place `j` is met once every full turn, and once more if the rest of the steps reaches it. */
  lemma {:induction false} BatchCount(ring: Ring, j: nat, x: nat)
    requires ring.Valid() && j < |ring.values|
    requires forall a, b :: 0 <= a < b < |ring.values| ==> ring.values[a] != ring.values[b]
    ensures multiset(Batch(ring, x))[ring.values[j]]
         == x / |ring.values| + if x % |ring.values| > Ahead(ring, j) then 1 else 0
  {
    hide Position, Batch, Advanced;
    if x == 0 {
      EmptyBatch(ring);
      DivModUnique(0, |ring.values|, 0, 0);
    } else {
      BatchCount(ring, j, x - 1);
      BatchStep(ring, x - 1);
      AdvancedPosition(ring, x - 1);
      MeetsAt(ring, j, x - 1);
      TurnStep(x - 1, |ring.values|, Ahead(ring, j));
    }
  }

  lemma TurnStep(x: nat, d: nat, ahead: nat)
    requires ahead < d
    ensures (x + 1) / d + (if (x + 1) % d > ahead then 1 else 0)
         == x / d + (if x % d > ahead then 1 else 0) + (if x % d == ahead then 1 else 0)
  {
    var q, r := x / d, x % d;
    assert x == d * q + r;
    if r + 1 < d {
      DivModUnique(x + 1, d, q, r + 1);
    } else {
      assert d * (q + 1) == d * q + d;
      DivModUnique(x + 1, d, q + 1, 0);
    }
  }

  lemma AdvancedPosition(ring: Ring, n: nat)
    requires ring.values != [] && ring.Valid()
    ensures Advanced(ring, n).at == Position(ring, n)
  {
    if n == 0 { DivModUnique(ring.at, |ring.values|, 0, ring.at); }
  }

  /** After `k` task loops every market was queried `kn/N` times, rounded down or up. */
  lemma Fairness(ring: Ring, n: nat, k: nat, j: nat)
    requires ring.Valid() && j < |ring.values|
    requires forall a, b :: 0 <= a < b < |ring.values| ==> ring.values[a] != ring.values[b]
    ensures var queried := multiset(Rounds(ring, n, k))[ring.values[j]];
            queried * |ring.values| - n * k < |ring.values| && n * k - queried * |ring.values| < |ring.values|
  {
    hide Rounds, Batch;
    RoundsAreOneBatch(ring, n, k);
    BatchCount(ring, j, n * k);
    Rounded(n * k, |ring.values|, multiset(Rounds(ring, n, k))[ring.values[j]]);
  }

  lemma Rounded(x: nat, d: nat, c: nat)
    requires d > 0 && (c == x / d || (c == x / d + 1 && x % d > 0))
    ensures c * d - x < d && x - c * d < d
  {
    assert x == d * (x / d) + x % d;
    assert (x / d + 1) * d == d * (x / d) + d;
  }

  /** A task loop of at most as many queries as there are markets queries no market twice. */
  lemma NoRepeat(ring: Ring, n: nat, a: nat, b: nat)
    requires ring.Valid() && a < b < n <= |ring.values|
    requires forall a, b :: 0 <= a < b < |ring.values| ==> ring.values[a] != ring.values[b]
    ensures Batch(ring, n)[a] != Batch(ring, n)[b]
  {
    var d := |ring.values|;
    var j := Position(ring, a);
    MeetsAt(ring, j, a);
    MeetsAt(ring, j, b);
    DivModUnique(a, d, 0, a);
    DivModUnique(b, d, 0, b);
  }
}
