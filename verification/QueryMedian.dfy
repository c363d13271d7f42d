/** The median of the values of a custom query, as hexadecimal text. */
module QueryMedian {
  import opened AbiNumber
  import opened Options
  import opened Sorting

  predicate AtMost(a: real, b: real) {
    a <= b
  }

  // ---------------------------------------------------------------- the median in hexadecimal

  function Middle(sorted: seq<real>): real
    requires sorted != []
  {
    var middle := |sorted| / 2;
    if |sorted| % 2 == 1 then sorted[middle] else (sorted[middle - 1] + sorted[middle]) / 2.0
  }

  /** How far apart the least and the greatest value are, in percent of the least. */
  function SpreadPercent(sorted: seq<real>): real
    requires sorted != [] && sorted[0] > 0.0
  {
    (sorted[|sorted| - 1] - sorted[0]) / sorted[0] * 100.0
  }

  predicate AllPositive(values: seq<real>) {
    forall v | v in values :: v > 0.0
  }

  /** The spread is not limited for a single value. */
  function MedianHexOf(values: seq<real>, responseType: string, maxSpreadPercent: real): Option<string> {
    if values == [] || !AllPositive(values) then None
    else if |values| == 1 then AbiEncoding(values[0], responseType)
    else
      var sorted := Sort(AtMost, values);
      SortedPositive(values);
      if SpreadPercent(sorted) > maxSpreadPercent then None else AbiEncoding(Middle(sorted), responseType)
  }

  lemma SortedPositive(values: seq<real>)
    requires AllPositive(values) && values != []
    ensures var sorted := Sort(AtMost, values); |sorted| == |values| && AllPositive(sorted) && sorted[0] > 0.0
  {
    hide Sort, IsSorted;
    SortSorts(AtMost, values);
    var sorted := Sort(AtMost, values);
    forall v | v in sorted ensures v > 0.0 {
      assert v in multiset(sorted);
      assert v in multiset(values);
      assert v in values;
    }
    assert sorted[0] in sorted;
  }

  method MedianInHex(values: seq<real>, responseType: string, maxSpreadPercent: real) returns (r: Option<string>)
    ensures r == MedianHexOf(values, responseType, maxSpreadPercent)
  {
    hide AbiEncoding, Sort;
    if |values| == 0 { return None; }
    for i := 0 to |values|
      invariant AllPositive(values[..i])
    {
      assert values[i] in values && values[..i + 1] == values[..i] + [values[i]];
      if values[i] <= 0.0 { return None; }
    }
    assert values[..|values|] == values;
    if |values| == 1 {
      r := AbiNumberEncoder(values[0], responseType);
      return;
    }
    var sorted := Sort(AtMost, values);
    SortedPositive(values);
    var minValue, maxValue := sorted[0], sorted[|sorted| - 1];
    var difference := maxValue - minValue;
    var spreadPercent := difference / minValue * 100.0;
    if spreadPercent > maxSpreadPercent { return None; }
    var middle := |sorted| / 2;
    var medianValue := if |sorted| % 2 == 1 then sorted[middle] else (sorted[middle - 1] + sorted[middle]) / 2.0;
    r := AbiNumberEncoder(medianValue, responseType);
  }

  /** The result depends only on which values there are, and how often. */
  lemma MedianHexIgnoresOrder(a: seq<real>, b: seq<real>, responseType: string, maxSpreadPercent: real)
    requires multiset(a) == multiset(b)
    ensures MedianHexOf(a, responseType, maxSpreadPercent) == MedianHexOf(b, responseType, maxSpreadPercent)
  {
    hide AbiEncoding, Sort;
    assert |multiset(a)| == |a| && |multiset(b)| == |b|;
    assert forall v :: v in a <==> v in multiset(a);
    assert forall v :: v in b <==> v in multiset(b);
    SortIgnoresOrder(AtMost, a, b);
    if |a| == 1 {
      assert a[0] in b;
    }
  }

  /** The middle in terms of any ascending arrangement of the values. */
  lemma MiddleIs(values: seq<real>, t: seq<real>)
    requires values != [] && multiset(t) == multiset(values) && forall i, j :: 0 <= i < j < |t| ==> t[i] <= t[j]
    ensures |t| == |values| && |Sort(AtMost, values)| == |values|
    ensures |values| % 2 == 1 ==> Middle(Sort(AtMost, values)) == t[|values| / 2]
    ensures |values| % 2 == 0 ==> 2.0 * Middle(Sort(AtMost, values)) == t[|values| / 2 - 1] + t[|values| / 2]
  {
    hide Sort;
    assert |multiset(t)| == |t| && |multiset(values)| == |values|;
    SortSorts(AtMost, values);
    SortedUnique(AtMost, Sort(AtMost, values), t);
  }

  /** A result lies between the least and the greatest value, so a spread within the limit bounds its error. */
  lemma MiddleBetween(values: seq<real>)
    requires values != []
    ensures var sorted := Sort(AtMost, values);
            |sorted| == |values| && sorted[0] <= Middle(sorted) <= sorted[|sorted| - 1]
            && forall v | v in values :: sorted[0] <= v <= sorted[|sorted| - 1]
  {
    hide Sort, IsSorted, Middle;
    SortSorts(AtMost, values);
    var sorted := Sort(AtMost, values);
    SortedBounds(sorted);
    forall v | v in values ensures sorted[0] <= v <= sorted[|sorted| - 1] {
      assert v in multiset(values);
      assert v in multiset(sorted);
      assert v in sorted;
    }
  }

  lemma SortedBounds(sorted: seq<real>)
    requires IsSorted(AtMost, sorted) && sorted != []
    ensures sorted[0] <= Middle(sorted) <= sorted[|sorted| - 1]
    ensures forall v | v in sorted :: sorted[0] <= v <= sorted[|sorted| - 1]
  {
    forall i | 0 <= i < |sorted| ensures sorted[0] <= sorted[i] <= sorted[|sorted| - 1] {
      assert i > 0 ==> AtMost(sorted[0], sorted[i]);
      assert i < |sorted| - 1 ==> AtMost(sorted[i], sorted[|sorted| - 1]);
    }
  }
}
