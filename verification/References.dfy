/**
  Image references: byte-wise comparison, the tag-stripping that reconciliation
  keys on, and exactly when sorting by the full reference also sorts by the
  stripped one.
 */
module References {
  import opened Sorting

  /** Strict lexicographic order on strings, character by character. */
  predicate Less(a: string, b: string) {
    if b == [] then false
    else if a == [] then true
    else if a[0] != b[0] then a[0] < b[0]
    else Less(a[1..], b[1..])
  }

  /** The part of a reference before its first ':' (all of it when there is none). */
  function Strip(r: string): string {
    if r == [] || r[0] == ':' then [] else [r[0]] + Strip(r[1..])
  }

  lemma {:induction false} LessTrichotomy(a: string, b: string)
    ensures !(Less(a, b) && Less(b, a))
    ensures a != b <==> Less(a, b) || Less(b, a)
  {
    if a != [] && b != [] && a[0] == b[0] {
      LessTrichotomy(a[1..], b[1..]);
      assert a == [a[0]] + a[1..] && b == [b[0]] + b[1..];
    }
  }

  lemma {:induction false} LessTransitive(a: string, b: string, c: string)
    requires Less(a, b) && Less(b, c)
    ensures Less(a, c)
  {
    if a != [] && a[0] == b[0] && b[0] == c[0] {
      LessTransitive(a[1..], b[1..], c[1..]);
    }
  }

  lemma {:induction false} StripIsPrefix(r: string)
    ensures Strip(r) <= r
    ensures Strip(r) == r || r[|Strip(r)|] == ':'
    ensures ':' !in Strip(r)
  {
    if r != [] && r[0] != ':' {
      StripIsPrefix(r[1..]);
    }
  }

  /**
    `a` carries a tag, its stripped form is a proper prefix of `b`'s, and the
    character at which `b` goes on sorts before the ':' that follows in `a`
    ('-', '.', '/' and the digits all do).
   */
  predicate Clash(a: string, b: string) {
    && |Strip(a)| < |a|
    && Strip(a) < Strip(b)
    && Strip(b)[|Strip(a)|] < ':'
  }

  /** On two references with different names, the two orders agree exactly when neither clashes with the other. */
  lemma {:induction false} PairOrder(a: string, b: string)
    requires Strip(a) != Strip(b)
    ensures (Less(a, b) <==> Less(Strip(a), Strip(b))) <==> !Clash(a, b) && !Clash(b, a)
  {
    if a != [] && b != [] && a[0] != ':' && b[0] != ':' {
      assert Strip(a)[1..] == Strip(a[1..]) && Strip(b)[1..] == Strip(b[1..]);
      if a[0] == b[0] {
        PairOrder(a[1..], b[1..]);
        ClashTail(a, b);
        ClashTail(b, a);
      }
    }
  }

  lemma ClashTail(a: string, b: string)
    requires a != [] && b != [] && a[0] == b[0] && a[0] != ':'
    ensures Clash(a, b) <==> Clash(a[1..], b[1..])
  {
    var p, q := Strip(a[1..]), Strip(b[1..]);
    assert Strip(a) == [a[0]] + p && Strip(b) == [a[0]] + q;
    if p < q {
      assert [a[0]] + p < [a[0]] + q;
    }
    if [a[0]] + p < [a[0]] + q {
      assert p == ([a[0]] + p)[1..] && q == ([a[0]] + q)[1..];
      assert p < q;
    }
  }

  /** The order `sort_by(order_reference)` sorts by. */
  function ByReference<T>(ref: T -> string): (T, T) -> bool {
    (x: T, y: T) => !Less(ref(y), ref(x))
  }

  function Name<T>(ref: T -> string): T -> string {
    (x: T) => Strip(ref(x))
  }

  lemma ByReferenceIsTotal<T(!new)>(ref: T -> string)
    ensures TotalPreorder(ByReference(ref))
  {
    forall x, y
      ensures ByReference(ref)(x, y) || ByReference(ref)(y, x)
    {
      LessTrichotomy(ref(x), ref(y));
    }
    forall x, y, z | ByReference(ref)(x, y) && ByReference(ref)(y, z)
      ensures ByReference(ref)(x, z)
    {
      var a, b, c := ref(x), ref(y), ref(z);
      if Less(c, a) {
        LessTrichotomy(a, b);
        LessTrichotomy(b, c);
        if a == b || b == c {
        } else {
          LessTransitive(a, b, c);
          LessTrichotomy(a, c);
        }
      }
    }
  }

  /** What the merge demands of its two inputs: names strictly increasing. */
  ghost predicate StrictByName<T>(ref: T -> string, s: seq<T>) {
    forall i, j | 0 <= i < j < |s| :: Less(Strip(ref(s[i])), Strip(ref(s[j])))
  }

  /** A condition on the unsorted list: names pairwise distinct, and no two references clash. */
  ghost predicate Mergeable<T>(ref: T -> string, s: seq<T>) {
    && DistinctBy(Name(ref), s)
    && (forall x, y | x in s && y in s :: !Clash(ref(x), ref(y)))
  }

  /** Sorting by full reference establishes the merge's precondition if and only if the list is mergeable. */
  lemma SortBridge<T(!new)>(ref: T -> string, s: seq<T>)
    ensures StrictByName(ref, Sort(ByReference(ref), s)) <==> Mergeable(ref, s)
  {
    var t := Sort(ByReference(ref), s);
    ByReferenceIsTotal(ref);
    SortSorts(ByReference(ref), s);
    Members(t, s);
    SortDistinct(ByReference(ref), Name(ref), s);
    if Mergeable(ref, s) {
      SortedMergeableIsStrict(ref, t);
    }
    if StrictByName(ref, t) {
      StrictIsMergeable(ref, t);
    }
  }

  lemma SortedMergeableIsStrict<T(!new)>(ref: T -> string, t: seq<T>)
    requires Sorted(ByReference(ref), t) && Mergeable(ref, t)
    ensures StrictByName(ref, t)
  {
    forall i, j | 0 <= i < j < |t|
      ensures Less(Strip(ref(t[i])), Strip(ref(t[j])))
    {
      var a, b := ref(t[i]), ref(t[j]);
      assert Name(ref)(t[i]) != Name(ref)(t[j]);
      assert ByReference(ref)(t[i], t[j]);
      PairOrder(a, b);
      LessTrichotomy(a, b);
      LessTrichotomy(Strip(a), Strip(b));
    }
  }

  lemma StrictIsMergeable<T(!new)>(ref: T -> string, t: seq<T>)
    requires Sorted(ByReference(ref), t) && StrictByName(ref, t)
    ensures Mergeable(ref, t)
  {
    forall i, j | 0 <= i < j < |t|
      ensures Name(ref)(t[i]) != Name(ref)(t[j])
      ensures !Clash(ref(t[i]), ref(t[j])) && !Clash(ref(t[j]), ref(t[i]))
    {
      var a, b := ref(t[i]), ref(t[j]);
      assert ByReference(ref)(t[i], t[j]);
      LessTrichotomy(Strip(a), Strip(b));
      LessTrichotomy(a, b);
      PairOrder(a, b);
    }
    forall x, y | x in t && y in t
      ensures !Clash(ref(x), ref(y))
    {
      var i :| 0 <= i < |t| && t[i] == x;
      var j :| 0 <= j < |t| && t[j] == y;
      if i == j {
        assert !(Strip(ref(x)) < Strip(ref(x)));
      }
    }
  }

  lemma {:induction false} PrefixIsLess(a: string, b: string)
    requires a < b
    ensures Less(a, b)
  {
    if a != [] {
      PrefixIsLess(a[1..], b[1..]);
    }
  }

  /** A clash makes the full references sort against their names. */
  lemma ClashSortsBackwards(a: string, b: string)
    requires Clash(a, b)
    ensures Less(Strip(a), Strip(b)) && Less(b, a)
  {
    PrefixIsLess(Strip(a), Strip(b));
    PairOrder(a, b);
    LessTrichotomy(a, b);
  }

  /** Two ordinary images whose full references sort the opposite way round to their names. */
  lemma TagSortsAfterHyphen()
    ensures Less("alpine-slim:1", "alpine:1")
    ensures Less(Strip("alpine:1"), Strip("alpine-slim:1"))
    ensures Clash("alpine:1", "alpine-slim:1")
  {
    var a, b := "alpine:1", "alpine-slim:1";
    var s := ":1";
    var t := "-slim:1";
    assert a == "alpine" + s && b == "alpine" + t;
    StripAppend("alpine", s);
    StripAppend("alpine", t);
    LessAppend("alpine", t, s);
    LessAppend("alpine", Strip(s), Strip(t));
    assert Strip(t)[0] == '-';
    assert Strip(a) == "alpine" && Strip(b) == "alpine" + Strip(t);
  }

  lemma {:induction false} StripAppend(p: string, r: string)
    requires ':' !in p
    ensures Strip(p + r) == p + Strip(r)
  {
    if p != [] {
      StripAppend(p[1..], r);
      assert (p + r)[1..] == p[1..] + r;
    } else {
      assert p + r == r;
    }
  }

  lemma {:induction false} LessAppend(p: string, a: string, b: string)
    ensures Less(p + a, p + b) <==> Less(a, b)
  {
    if p != [] {
      LessAppend(p[1..], a, b);
      assert (p + a)[1..] == p[1..] + a && (p + b)[1..] == p[1..] + b;
    } else {
      assert p + a == a && p + b == b;
    }
  }
}
