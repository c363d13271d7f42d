/**
 Visiting the elements of a set in an order of the runtime's choosing; and sorting by a total order, of
 which there is one result, whichever routine finds it.
 */
module Sorting {

  /** A set is visited in some order, each element once. */
  ghost predicate Visits<K>(order: seq<K>, keys: set<K>) {
    multiset(order) == multiset(keys)
  }

  lemma VisitsKeys<K>(order: seq<K>, keys: set<K>)
    requires Visits(order, keys)
    ensures forall k :: k in order <==> k in keys
    ensures |order| == |keys|
  {
    assert forall k :: k in order <==> k in multiset(order);
    assert |multiset(order)| == |order|;
  }

  ghost function SomeOrder<K>(keys: set<K>): (order: seq<K>)
    ensures Visits(order, keys)
  {
    if keys == {} then [] else
      var k :| k in keys;
      assert multiset(keys) == multiset(keys - {k}) + multiset{k};
      SomeOrder(keys - {k}) + [k]
  }

  method ListElements<K(==)>(keys: set<K>) returns (order: seq<K>)
    ensures Visits(order, keys)
  {
    order := [];
    var left := keys;
    while left != {}
      invariant left <= keys && Visits(order, keys - left)
    {
      var k :| k in left;
      order := order + [k];
      assert keys - (left - {k}) == (keys - left) + {k};
      left := left - {k};
    }
    assert keys - {} == keys;
  }

  /** `part` are the elements of a list at increasing positions. */
  ghost predicate PickedAt<T>(at: seq<nat>, part: seq<T>, s: seq<T>) {
    && |at| == |part|
    && (forall k :: 0 <= k < |at| ==> at[k] < |s| && part[k] == s[at[k]])
    && forall k, l :: 0 <= k < l < |at| ==> at[k] < at[l]
  }

  lemma NothingPicked<T>()
    ensures PickedAt<T>([], [], [])
  {
  }

  /** One more element at the end, which is picked too or not. */
  lemma PickLast<T>(at: seq<nat>, part: seq<T>, s: seq<T>, picked: bool)
    requires s != [] && PickedAt(at, part, s[..|s| - 1])
    ensures PickedAt(at + (if picked then [|s| - 1] else []), part + (if picked then [s[|s| - 1]] else []), s)
  {
  }

  /** One more element at the front. */
  lemma PickFirst<T>(rest: seq<nat>, part: seq<T>, s: seq<T>, picked: bool) returns (at: seq<nat>)
    requires s != [] && PickedAt(rest, part, s[1..])
    ensures PickedAt(at, (if picked then [s[0]] else []) + part, s)
    ensures (0 in at <==> picked) && forall i: nat :: i + 1 in at <==> i in rest
  {
    var shifted := Shifted(rest);
    at := (if picked then [0] else []) + shifted;
  }

  /** The same positions in a list with one more element at the front. */
  lemma Shifted(rest: seq<nat>) returns (at: seq<nat>)
    ensures |at| == |rest| && (forall k :: 0 <= k < |rest| ==> at[k] == rest[k] + 1)
    ensures 0 !in at && forall i: nat :: i + 1 in at <==> i in rest
  {
    at := seq(|rest|, k requires 0 <= k < |rest| => rest[k] + 1);
    forall i: nat ensures i + 1 in at <==> i in rest {
      if i in rest {
        var k :| 0 <= k < |rest| && rest[k] == i;
        assert at[k] == i + 1;
      }
    }
  }

  lemma RemoveAt<T>(s: seq<T>, i: nat)
    requires i < |s|
    ensures multiset(s[..i] + s[i + 1..]) == multiset(s) - multiset{s[i]}
  {
    assert s == s[..i] + [s[i]] + s[i + 1..];
  }

  lemma IndexIn<T>(a: seq<T>, b: seq<T>) returns (i: nat)
    requires a != [] && multiset(a) == multiset(b)
    ensures i < |b| && b[i] == a[0]
  {
    assert a[0] in multiset(a);
    assert a[0] in b;
    i :| 0 <= i < |b| && b[i] == a[0];
  }

  lemma NothingLeft<T>(s: seq<T>)
    requires multiset(s) == multiset{}
    ensures s == []
  {
    assert |multiset(s)| == |s|;
  }

  ghost predicate TotalOrder<T(!new)>(le: (T, T) -> bool) {
    && (forall a, b :: le(a, b) || le(b, a))
    && (forall a, b :: le(a, b) && le(b, a) ==> a == b)
    && (forall a, b, c :: le(a, b) && le(b, c) ==> le(a, c))
  }

  ghost predicate IsSorted<T>(le: (T, T) -> bool, s: seq<T>) {
    forall i, j :: 0 <= i < j < |s| ==> le(s[i], s[j])
  }

  function Insert<T>(le: (T, T) -> bool, x: T, s: seq<T>): seq<T> {
    if s == [] || le(x, s[0]) then [x] + s else [s[0]] + Insert(le, x, s[1..])
  }

  function Sort<T>(le: (T, T) -> bool, s: seq<T>): seq<T> {
    if s == [] then [] else Insert(le, s[0], Sort(le, s[1..]))
  }

  lemma {:induction false} InsertPermutes<T>(le: (T, T) -> bool, x: T, s: seq<T>)
    ensures multiset(Insert(le, x, s)) == multiset(s) + multiset{x}
  {
    if s != [] && !le(x, s[0]) {
      InsertPermutes(le, x, s[1..]);
      assert s == [s[0]] + s[1..];
    }
  }

  lemma {:induction false} InsertSorted<T(!new)>(le: (T, T) -> bool, x: T, s: seq<T>)
    requires TotalOrder(le) && IsSorted(le, s)
    ensures IsSorted(le, Insert(le, x, s))
  {
    if s == [] {
    } else if le(x, s[0]) {
      forall j | 0 <= j < |s| ensures le(x, s[j]) {
        if j > 0 { assert le(s[0], s[j]); }
      }
    } else {
      var rest := Insert(le, x, s[1..]);
      InsertSorted(le, x, s[1..]);
      InsertPermutes(le, x, s[1..]);
      forall j | 0 <= j < |rest| ensures le(s[0], rest[j]) {
        assert rest[j] in multiset(rest);
        assert rest[j] == x || rest[j] in s[1..];
      }
    }
  }

  lemma {:induction false} SortSorts<T(!new)>(le: (T, T) -> bool, s: seq<T>)
    requires TotalOrder(le)
    ensures IsSorted(le, Sort(le, s)) && multiset(Sort(le, s)) == multiset(s) && |Sort(le, s)| == |s|
  {
    hide TotalOrder, IsSorted;
    if s == [] {
      EmptySorted(le);
    } else {
      SortSorts(le, s[1..]);
      InsertSorted(le, s[0], Sort(le, s[1..]));
      InsertPermutes(le, s[0], Sort(le, s[1..]));
      assert s == [s[0]] + s[1..];
    }
    assert |multiset(Sort(le, s))| == |Sort(le, s)|;
  }

  lemma EmptySorted<T>(le: (T, T) -> bool)
    ensures IsSorted(le, [])
  {
  }

  lemma HeadIsLeast<T(!new)>(le: (T, T) -> bool, s: seq<T>)
    requires TotalOrder(le) && IsSorted(le, s) && s != []
    ensures forall y | y in s :: le(s[0], y)
    ensures IsSorted(le, s[1..]) && multiset(s[1..]) == multiset(s) - multiset{s[0]}
  {
    assert s == [s[0]] + s[1..];
    assert le(s[0], s[0]);
  }

  lemma {:induction false} SortedUnique<T(!new)>(le: (T, T) -> bool, a: seq<T>, b: seq<T>)
    requires TotalOrder(le) && IsSorted(le, a) && IsSorted(le, b) && multiset(a) == multiset(b)
    ensures a == b
  {
    hide IsSorted;
    assert |multiset(a)| == |a| && |multiset(b)| == |b|;
    if a != [] {
      HeadIsLeast(le, a);
      HeadIsLeast(le, b);
      assert a[0] in multiset(a) && b[0] in multiset(b);
      assert a[0] in b && b[0] in a;
      SortedUnique(le, a[1..], b[1..]);
      assert a == [a[0]] + a[1..] && b == [b[0]] + b[1..];
    }
  }

  /** The order of the input does not matter. */
  lemma SortIgnoresOrder<T(!new)>(le: (T, T) -> bool, a: seq<T>, b: seq<T>)
    requires TotalOrder(le) && multiset(a) == multiset(b)
    ensures Sort(le, a) == Sort(le, b)
  {
    SortSorts(le, a);
    SortSorts(le, b);
    SortedUnique(le, Sort(le, a), Sort(le, b));
  }
}
