/** The generic median over machine integers. */
module Median {
  import opened Options
  import opened Sorting

  predicate AtMost(a: int, b: int) {
    a <= b
  }

  // ---------------------------------------------------------------- machine integers

  /** The range of one of the four integer types the median is instantiated with. */
  datatype IntType = IntType(lo: int, hi: int) {
    ghost predicate Machine() {
      (lo == 0 && hi > 0) || (lo < 0 && lo == -hi - 1)
    }

    predicate Has(v: int) {
      lo <= v <= hi
    }
  }

  /** Results outside the range wrap around. */
  function Wrap(t: IntType, v: int): int
    requires t.lo <= t.hi
  {
    (v - t.lo) % (t.hi - t.lo + 1) + t.lo
  }

  const UINT64 := IntType(0, 0xFFFF_FFFF_FFFF_FFFF)

  /** Division and remainder by two, truncating towards zero. */
  function Half(v: int): int {
    if v >= 0 then v / 2 else -(-v / 2)
  }

  function Parity(v: int): int {
    if v >= 0 then v % 2 else -(-v % 2)
  }

  lemma WrapInRange(t: IntType, v: int)
    requires t.lo <= v <= t.hi
    ensures Wrap(t, v) == v
  {
    var k, n := v - t.lo, t.hi - t.lo + 1;
    assert 0 <= k < n;
    assert k == n * (k / n) + k % n;
    assert k / n == 0;
  }

  // ---------------------------------------------------------------- specification

  /** The average of two integers, rounded away from zero. */
  function Average(x: int, y: int): (r: int)
    ensures x + y >= 0 ==> 0 <= 2 * r - (x + y) <= 1
    ensures x + y < 0 ==> -1 <= 2 * r - (x + y) <= 0
  {
    var sum := x + y;
    if sum >= 0 then (sum + 1) / 2 else -((-sum + 1) / 2)
  }

  function MedianOf(s: seq<int>): (r: Option<int>)
    ensures r.Some? <==> s != []
  {
    var sorted, mid := Sort(AtMost, s), |s| / 2;
    SortSorts(AtMost, s);
    if s == [] then None
    else if |s| % 2 == 1 then Some(sorted[mid])
    else Some(Average(sorted[mid - 1], sorted[mid]))
  }

  // ---------------------------------------------------------------- the code

  /** The average as it is computed, every operation wrapping around in `t`. */
  method MiddleAverage(t: IntType, x: int, y: int) returns (r: int)
    requires t.Machine() && t.Has(x) && t.Has(y) && x <= y
    ensures r == Average(x, y) && t.Has(r)
  {
    hide Wrap;
    if x <= 0 && y >= 0 {
      WrapInRange(t, x + y);
      var sum := Wrap(t, x + y);
      WrapInRange(t, Half(sum) + Parity(sum));
      r := Wrap(t, Half(sum) + Parity(sum));
    } else if y > 0 {
      WrapInRange(t, y - x);
      WrapInRange(t, y - Half(y - x));
      r := Wrap(t, y - Half(Wrap(t, y - x)));
    } else {
      WrapInRange(t, y - x);
      WrapInRange(t, x + Half(y - x));
      r := Wrap(t, x + Half(Wrap(t, y - x)));
    }
  }

  /** `Median`: the copy is sorted, the input is not touched; an empty input is an error. */
  method Median(t: IntType, input: seq<int>) returns (r: Option<int>)
    requires t.Machine() && forall v | v in input :: t.Has(v)
    ensures r == MedianOf(input)
    ensures r.None? <==> input == []
    ensures r.Some? ==> t.Has(r.value)
  {
    var l := |input|;
    if l == 0 { return None; }
    SortSorts(AtMost, input);
    var inputCopy := Sort(AtMost, input);
    forall k | 0 <= k < l ensures t.Has(inputCopy[k]) {
      assert inputCopy[k] in multiset(input);
    }
    var midIdx := l / 2;
    if l % 2 == 1 { return Some(inputCopy[midIdx]); }
    assert AtMost(inputCopy[midIdx - 1], inputCopy[midIdx]);
    var average := MiddleAverage(t, inputCopy[midIdx - 1], inputCopy[midIdx]);
    return Some(average);
  }

  // ---------------------------------------------------------------- properties

  /** The order of the input does not matter. */
  lemma MedianIgnoresOrder(a: seq<int>, b: seq<int>)
    requires multiset(a) == multiset(b)
    ensures MedianOf(a) == MedianOf(b)
  {
    hide Sort, IsSorted;
    assert |multiset(a)| == |a| && |multiset(b)| == |b|;
    SortIgnoresOrder(AtMost, a, b);
  }

  function CountAtMost(s: seq<int>, m: int): nat {
    if s == [] then 0 else (if s[0] <= m then 1 else 0) + CountAtMost(s[1..], m)
  }

  function CountAtLeast(s: seq<int>, m: int): nat {
    if s == [] then 0 else (if s[0] >= m then 1 else 0) + CountAtLeast(s[1..], m)
  }

  lemma {:induction false} InsertCounts(x: int, s: seq<int>, m: int)
    ensures CountAtMost(Insert(AtMost, x, s), m) == (if x <= m then 1 else 0) + CountAtMost(s, m)
    ensures CountAtLeast(Insert(AtMost, x, s), m) == (if x >= m then 1 else 0) + CountAtLeast(s, m)
  {
    if s != [] && x > s[0] {
      InsertCounts(x, s[1..], m);
      assert Insert(AtMost, x, s)[1..] == Insert(AtMost, x, s[1..]);
    } else {
      assert ([x] + s)[1..] == s;
    }
  }

  lemma {:induction false} SortCounts(s: seq<int>, m: int)
    ensures CountAtMost(Sort(AtMost, s), m) == CountAtMost(s, m)
    ensures CountAtLeast(Sort(AtMost, s), m) == CountAtLeast(s, m)
  {
    if s != [] {
      SortCounts(s[1..], m);
      InsertCounts(s[0], Sort(AtMost, s[1..]), m);
    }
  }

  lemma {:induction false} SortedCounts(s: seq<int>, m: int, k: nat)
    requires IsSorted(AtMost, s) && k <= |s|
    ensures (k > 0 ==> s[k - 1] <= m) ==> CountAtMost(s, m) >= k
    ensures (k < |s| ==> s[k] >= m) ==> CountAtLeast(s, m) >= |s| - k
  {
    if s != [] {
      assert k > 1 ==> AtMost(s[0], s[k - 1]);
      assert k == 0 && |s| > 1 ==> AtMost(s[0], s[1]);
      SortedCounts(s[1..], m, if k == 0 then 0 else k - 1);
    }
  }

  lemma MiddleSplits(sorted: seq<int>, m: int)
    requires IsSorted(AtMost, sorted) && sorted != []
    requires if |sorted| % 2 == 1 then m == sorted[|sorted| / 2] else m == Average(sorted[|sorted| / 2 - 1], sorted[|sorted| / 2])
    ensures 2 * CountAtMost(sorted, m) >= |sorted| && 2 * CountAtLeast(sorted, m) >= |sorted|
  {
    hide CountAtMost, CountAtLeast;
    var mid := |sorted| / 2;
    if |sorted| % 2 == 1 {
      SortedCounts(sorted, m, mid + 1);
      SortedCounts(sorted, m, mid);
    } else {
      assert AtMost(sorted[mid - 1], sorted[mid]);
      SortedCounts(sorted, m, mid);
    }
  }

  /**
   The median in terms of any ascending arrangement of the input: the middle value of an odd number of them,
   and of an even number half the sum of the two middle ones, rounded away from zero.
   */
  lemma MedianIsMiddle(s: seq<int>, t: seq<int>)
    requires s != [] && multiset(t) == multiset(s) && forall i, j :: 0 <= i < j < |t| ==> t[i] <= t[j]
    ensures |t| == |s| && MedianOf(s).Some?
    ensures |s| % 2 == 1 ==> MedianOf(s).value == t[|s| / 2]
    ensures |s| % 2 == 0 ==>
              var sum := t[|s| / 2 - 1] + t[|s| / 2];
              && (sum >= 0 ==> 0 <= 2 * MedianOf(s).value - sum <= 1)
              && (sum < 0 ==> -1 <= 2 * MedianOf(s).value - sum <= 0)
  {
    hide Sort;
    assert |multiset(t)| == |t| && |multiset(s)| == |s|;
    SortSorts(AtMost, s);
    SortedUnique(AtMost, Sort(AtMost, s), t);
  }

  /** At least half of the input is at most the median, and at least half is at least the median. */
  lemma MedianSplits(s: seq<int>)
    requires s != []
    ensures var m := MedianOf(s).value;
            2 * CountAtMost(s, m) >= |s| && 2 * CountAtLeast(s, m) >= |s|
  {
    hide Sort, IsSorted, Average, CountAtMost, CountAtLeast;
    SortSorts(AtMost, s);
    var m := MedianOf(s).value;
    SortCounts(s, m);
    MiddleSplits(Sort(AtMost, s), m);
  }
}
