/**
  A stable sort by a caller-supplied order, standing for the standard library's
  `sort_by` and for an `ORDER BY` clause.
 */
module Sorting {
  ghost predicate TotalPreorder<T(!new)>(leq: (T, T) -> bool) {
    && (forall x, y :: leq(x, y) || leq(y, x))
    && (forall x, y, z :: leq(x, y) && leq(y, z) ==> leq(x, z))
  }

  ghost predicate Sorted<T>(leq: (T, T) -> bool, s: seq<T>) {
    forall i, j | 0 <= i < j < |s| :: leq(s[i], s[j])
  }

  /** No two positions of `s` share a key. */
  ghost predicate DistinctBy<T, K>(key: T -> K, s: seq<T>) {
    forall i, j | 0 <= i < j < |s| :: key(s[i]) != key(s[j])
  }

  function Insert<T>(leq: (T, T) -> bool, x: T, s: seq<T>): (r: seq<T>)
    ensures multiset(r) == multiset{x} + multiset(s)
    ensures |r| == |s| + 1
  {
    if s == [] then [x]
    else if leq(x, s[0]) then [x] + s
    else
      assert s == [s[0]] + s[1..];
      [s[0]] + Insert(leq, x, s[1..])
  }

  function Sort<T>(leq: (T, T) -> bool, s: seq<T>): (r: seq<T>)
    ensures multiset(r) == multiset(s)
    ensures |r| == |s|
  {
    if s == [] then []
    else
      assert s == [s[0]] + s[1..];
      Insert(leq, s[0], Sort(leq, s[1..]))
  }

  lemma Members<T>(r: seq<T>, s: seq<T>)
    requires multiset(r) == multiset(s)
    ensures forall x :: x in r <==> x in s
  {
    forall x
      ensures x in r <==> x in s
    {
      assert x in r <==> x in multiset(r);
      assert x in s <==> x in multiset(s);
    }
  }

  lemma {:induction false} InsertSorted<T(!new)>(leq: (T, T) -> bool, x: T, s: seq<T>)
    requires TotalPreorder(leq) && Sorted(leq, s)
    ensures Sorted(leq, Insert(leq, x, s))
  {
    if s != [] && !leq(x, s[0]) {
      var rest := Insert(leq, x, s[1..]);
      InsertSorted(leq, x, s[1..]);
      forall y | y in rest
        ensures leq(s[0], y)
      {
        assert y in multiset(rest);
      }
    }
  }

  lemma {:induction false} SortSorts<T(!new)>(leq: (T, T) -> bool, s: seq<T>)
    requires TotalPreorder(leq)
    ensures Sorted(leq, Sort(leq, s))
  {
    if s != [] {
      SortSorts(leq, s[1..]);
      InsertSorted(leq, s[0], Sort(leq, s[1..]));
    }
  }

  /** No element of `s` has the key of `x`. */
  ghost predicate FreshKey<T, K>(key: T -> K, x: T, s: seq<T>) {
    forall y | y in s :: key(x) != key(y)
  }

  lemma DistinctCons<T, K>(key: T -> K, x: T, s: seq<T>)
    ensures DistinctBy(key, [x] + s) <==> DistinctBy(key, s) && FreshKey(key, x, s)
  {
    var t := [x] + s;
    assert forall i | 0 <= i < |s| :: t[i + 1] == s[i];
    if DistinctBy(key, t) {
      forall i, j | 0 <= i < j < |s|
        ensures key(s[i]) != key(s[j])
      {
        assert key(t[i + 1]) != key(t[j + 1]);
      }
      forall y | y in s
        ensures key(x) != key(y)
      {
        var i :| 0 <= i < |s| && s[i] == y;
        assert key(t[0]) != key(t[i + 1]);
      }
    }
  }

  lemma FreshCons<T, K>(key: T -> K, x: T, y: T, s: seq<T>)
    ensures FreshKey(key, x, [y] + s) <==> key(x) != key(y) && FreshKey(key, x, s)
  {
  }

  lemma FreshMembers<T, K>(key: T -> K, x: T, r: seq<T>, s: seq<T>)
    requires multiset(r) == multiset(s)
    ensures FreshKey(key, x, r) <==> FreshKey(key, x, s)
  {
    Members(r, s);
  }

  lemma {:induction false} InsertDistinct<T, K>(leq: (T, T) -> bool, key: T -> K, x: T, s: seq<T>)
    ensures DistinctBy(key, Insert(leq, x, s)) <==> DistinctBy(key, s) && FreshKey(key, x, s)
  {
    if s == [] || leq(x, s[0]) {
      DistinctCons(key, x, s);
    } else {
      var head, tail := s[0], s[1..];
      InsertDistinct(leq, key, x, tail);
      InsertDistinctStep(key, x, head, tail, Insert(leq, x, tail));
      assert s == [head] + tail;
    }
  }

  lemma InsertDistinctStep<T, K>(key: T -> K, x: T, head: T, tail: seq<T>, r: seq<T>)
    requires multiset(r) == multiset{x} + multiset(tail)
    requires DistinctBy(key, r) <==> DistinctBy(key, tail) && FreshKey(key, x, tail)
    ensures DistinctBy(key, [head] + r) <==> DistinctBy(key, [head] + tail) && FreshKey(key, x, [head] + tail)
  {
    DistinctCons(key, head, r);
    DistinctCons(key, head, tail);
    FreshMembers(key, head, r, [x] + tail);
    FreshCons(key, head, x, tail);
    FreshCons(key, x, head, tail);
  }

  /** Sorting neither creates nor removes a key collision. */
  lemma {:induction false} SortDistinct<T, K>(leq: (T, T) -> bool, key: T -> K, s: seq<T>)
    ensures DistinctBy(key, Sort(leq, s)) <==> DistinctBy(key, s)
  {
    if s != [] {
      var r := Sort(leq, s[1..]);
      SortDistinct(leq, key, s[1..]);
      InsertDistinct(leq, key, s[0], r);
      DistinctCons(key, s[0], s[1..]);
      FreshMembers(key, s[0], r, s[1..]);
      assert s == [s[0]] + s[1..];
    }
  }

  /** A list that is already in order is left alone. */
  lemma {:induction false} SortOfSorted<T>(leq: (T, T) -> bool, s: seq<T>)
    requires Sorted(leq, s)
    ensures Sort(leq, s) == s
  {
    if s != [] {
      assert Sorted(leq, s[1..]);
      SortOfSorted(leq, s[1..]);
      if |s| > 1 {
        assert s[1..][0] == s[1];
      }
    }
  }
}
