/**
 * The orders that the library sorts use, and why a sorted listing of a set is unique.
 *
 * A program that walks a map and sorts what it met gets the same list in whatever order the map was walked.
 */
module Ordering {
  import opened Common

  /** Byte-wise lexicographic order, as Go's sort.Strings and C++'s std::string compare. */
  predicate StrLess(a: string, b: string) {
    if b == [] then false
    else if a == [] then true
    else if a[0] != b[0] then a[0] < b[0]
    else StrLess(a[1..], b[1..])
  }

  predicate IntLess(a: int, b: int) { a < b }

  ghost predicate StrictTotal<T(!new)>(less: (T, T) -> bool) {
    && (forall x :: !less(x, x))
    && (forall x, y, z :: less(x, y) && less(y, z) ==> less(x, z))
    && (forall x, y :: x != y ==> less(x, y) || less(y, x))
  }

  /** What std::sort and sort.Slice ask of a comparison: a strict order whose ties are an equivalence. */
  ghost predicate StrictWeak<T(!new)>(less: (T, T) -> bool) {
    && (forall x, y :: less(x, y) ==> !less(y, x))
    && (forall x, y, z :: !less(x, y) && !less(y, z) ==> !less(x, z))
  }

  lemma TotalIsWeak<T(!new)>(less: (T, T) -> bool)
    requires StrictTotal(less)
    ensures StrictWeak(less)
  {
    forall x, y, z | !less(x, y) && !less(y, z) ensures !less(x, z) {
      assert x == y || less(y, x);
      assert y == z || less(z, y);
    }
  }

  lemma {:induction false} StrLessIrreflexive(a: string)
    ensures !StrLess(a, a)
  {
    if a != [] { StrLessIrreflexive(a[1..]); }
  }

  lemma {:induction false} StrLessTransitive(a: string, b: string, c: string)
    requires StrLess(a, b) && StrLess(b, c)
    ensures StrLess(a, c)
  {
    if a != [] && a[0] == b[0] == c[0] {
      StrLessTransitive(a[1..], b[1..], c[1..]);
    }
  }

  lemma {:induction false} StrLessTotal(a: string, b: string)
    requires a != b
    ensures StrLess(a, b) || StrLess(b, a)
  {
    if a != [] && b != [] && a[0] == b[0] {
      assert a == [a[0]] + a[1..] && b == [b[0]] + b[1..];
      StrLessTotal(a[1..], b[1..]);
    }
  }

  /** `a` and `b` agree before position `k` and differ there. */
  predicate DifferFirstAt(a: string, b: string, k: nat) {
    k < |a| && k < |b| && a[..k] == b[..k] && a[k] != b[k]
  }

  /** A string sorts before another if it is a proper prefix, or has the lower byte where they first differ. */
  lemma {:induction false} StrLessIff(a: string, b: string)
    ensures StrLess(a, b) <==> a < b || exists k: nat :: DifferFirstAt(a, b, k) && a[k] as int < b[k] as int
  {
    if a != [] && b != [] && a[0] == b[0] {
      StrLessIff(a[1..], b[1..]);
      assert a == [a[0]] + a[1..] && b == [b[0]] + b[1..];
      forall k: nat ensures DifferFirstAt(a[1..], b[1..], k) <==> DifferFirstAt(a, b, k + 1) {
        LaterDifference(a, b, k);
      }
      assert !DifferFirstAt(a, b, 0);
    } else if a != [] && b != [] {
      assert DifferFirstAt(a, b, 0);
      assert forall k: nat :: DifferFirstAt(a, b, k) ==> k == 0;
    }
  }

  lemma LaterDifference(a: string, b: string, k: nat)
    requires a != [] && b != [] && a[0] == b[0]
    ensures DifferFirstAt(a[1..], b[1..], k) <==> DifferFirstAt(a, b, k + 1)
  {
    if k < |a| - 1 && k < |b| - 1 {
      assert a[..k + 1] == [a[0]] + a[1..][..k] && b[..k + 1] == [b[0]] + b[1..][..k];
    }
  }

  lemma StrLessStrictTotal()
    ensures StrictTotal(StrLess)
  {
    forall a: string ensures !StrLess(a, a) { StrLessIrreflexive(a); }
    forall a, b, c | StrLess(a, b) && StrLess(b, c) ensures StrLess(a, c) { StrLessTransitive(a, b, c); }
    forall a: string, b: string | a != b ensures StrLess(a, b) || StrLess(b, a) { StrLessTotal(a, b); }
  }

  lemma IntLessStrictTotal()
    ensures StrictTotal(IntLess)
  {
  }

  /** Strictly ascending, hence free of duplicates. */
  ghost predicate Ascending<T(!new)>(less: (T, T) -> bool, xs: seq<T>) {
    forall i, j :: 0 <= i < j < |xs| ==> less(xs[i], xs[j])
  }

  /** `xs` lists the set `s` in ascending order. */
  ghost predicate Lists<T(!new)>(less: (T, T) -> bool, xs: seq<T>, s: set<T>) {
    Ascending(less, xs) && Elems(xs) == s
  }

  /** A set has only one ascending listing, so the map iteration order that produced it is invisible. */
  lemma {:induction false} ListingUnique<T(!new)>(less: (T, T) -> bool, xs: seq<T>, ys: seq<T>, s: set<T>)
    requires StrictTotal(less)
    requires Lists(less, xs, s) && Lists(less, ys, s)
    ensures xs == ys
    decreases |xs|
  {
    if xs == [] {
      ElemsEmpty(xs);
      ElemsEmpty(ys);
    } else {
      assert xs[0] in s;
      assert ys != [];
      assert ys[0] in s;
      assert xs[0] == ys[0];
      var t := s - {xs[0]};
      assert Elems(xs[1..]) == t by { TailElems(less, xs); }
      assert Elems(ys[1..]) == t by { TailElems(less, ys); }
      ListingUnique(less, xs[1..], ys[1..], t);
      assert xs == [xs[0]] + xs[1..] && ys == [ys[0]] + ys[1..];
    }
  }

  lemma TailElems<T(!new)>(less: (T, T) -> bool, xs: seq<T>)
    requires StrictTotal(less) && Ascending(less, xs) && xs != []
    ensures Elems(xs[1..]) == Elems(xs) - {xs[0]}
  {
    assert xs == [xs[0]] + xs[1..];
    forall x | x in xs[1..] ensures x != xs[0] {
      var k :| 0 <= k < |xs[1..]| && xs[1..][k] == x;
      assert less(xs[0], xs[k + 1]);
    }
  }

  /** Weakly sorted: no element is followed by a smaller one. */
  ghost predicate Sorted<T(!new)>(less: (T, T) -> bool, xs: seq<T>) {
    forall i, j :: 0 <= i < j < |xs| ==> !less(xs[j], xs[i])
  }

  function Insert<T(!new)>(less: (T, T) -> bool, x: T, xs: seq<T>): (r: seq<T>)
    ensures multiset(r) == multiset(xs) + multiset{x}
    ensures |r| == |xs| + 1
  {
    if xs == [] then [x]
    else if less(x, xs[0]) then [x] + xs
    else
      assert xs == [xs[0]] + xs[1..];
      [xs[0]] + Insert(less, x, xs[1..])
  }

  lemma {:induction false} InsertSorted<T(!new)>(less: (T, T) -> bool, x: T, xs: seq<T>)
    requires StrictWeak(less) && Sorted(less, xs)
    ensures Sorted(less, Insert(less, x, xs))
  {
    var r := Insert(less, x, xs);
    if xs == [] {
    } else if less(x, xs[0]) {
      forall j | 0 < j < |r| ensures !less(r[j], x) {
        assert r[j] == xs[j - 1];
      }
    } else {
      InsertSorted(less, x, xs[1..]);
      var t := Insert(less, x, xs[1..]);
      forall j | 0 < j < |r| ensures !less(r[j], r[0]) {
        assert t[j - 1] in multiset(t);
        assert t[j - 1] == x || t[j - 1] in multiset(xs[1..]);
        assert r[j] == t[j - 1];
      }
      forall i, j | 0 < i < j < |r| ensures !less(r[j], r[i]) {
        assert r[j] == t[j - 1] && r[i] == t[i - 1];
      }
    }
  }

  /** The library sort: a sorted permutation of its input. */
  function Sort<T(!new)>(less: (T, T) -> bool, xs: seq<T>): (r: seq<T>)
    ensures multiset(r) == multiset(xs)
    ensures |r| == |xs|
  {
    if xs == [] then []
    else
      assert xs == [xs[0]] + xs[1..];
      Insert(less, xs[0], Sort(less, xs[1..]))
  }

  lemma {:induction false} SortSorted<T(!new)>(less: (T, T) -> bool, xs: seq<T>)
    requires StrictWeak(less)
    ensures Sorted(less, Sort(less, xs))
  {
    if xs != [] {
      SortSorted(less, xs[1..]);
      InsertSorted(less, xs[0], Sort(less, xs[1..]));
    }
  }

  lemma SameElems<T>(xs: seq<T>, ys: seq<T>)
    requires multiset(xs) == multiset(ys)
    ensures Elems(xs) == Elems(ys)
  {
    forall x ensures x in xs <==> x in ys {
      assert x in xs <==> x in multiset(xs);
      assert x in ys <==> x in multiset(ys);
    }
  }

  lemma {:induction false} DistinctMultiset<T>(xs: seq<T>, k: nat, l: nat)
    requires k < l < |xs| && xs[k] == xs[l]
    ensures multiset(xs)[xs[k]] >= 2
  {
    assert xs == xs[..l] + [xs[l]] + xs[l + 1..];
    assert xs[k] in xs[..l];
    assert multiset(xs) == multiset(xs[..l]) + multiset{xs[l]} + multiset(xs[l + 1..]);
  }

  lemma {:induction false} DistinctCount<T>(xs: seq<T>, x: T)
    requires Distinct(xs)
    ensures multiset(xs)[x] <= 1
    decreases |xs|
  {
    if xs != [] {
      var n := |xs| - 1;
      assert xs == xs[..n] + [xs[n]];
      assert multiset(xs) == multiset(xs[..n]) + multiset{xs[n]};
      if x == xs[n] {
        assert x !in xs[..n];
        assert x !in multiset(xs[..n]);
      } else {
        DistinctCount(xs[..n], x);
      }
    }
  }

  /** Sorting a duplicate-free enumeration of a set gives the ascending listing of that set. */
  lemma SortListing<T(!new)>(less: (T, T) -> bool, xs: seq<T>)
    requires StrictTotal(less) && Distinct(xs)
    ensures Lists(less, Sort(less, xs), Elems(xs))
  {
    var r := Sort(less, xs);
    TotalIsWeak(less);
    SortSorted(less, xs);
    SameElems(r, xs);
    forall i, j | 0 <= i < j < |r| ensures less(r[i], r[j]) {
      if r[i] == r[j] {
        DistinctMultiset(r, i, j);
        DistinctCount(xs, r[i]);
        assert false;
      }
    }
  }

  /** An ascending listing is as long as the set it lists. */
  lemma ListingCard<T(!new)>(less: (T, T) -> bool, xs: seq<T>)
    requires StrictTotal(less) && Ascending(less, xs)
    ensures Distinct(xs) && |Elems(xs)| == |xs|
  {
    hide Elems;
    forall i, j | 0 <= i < j < |xs| ensures xs[i] != xs[j] {
      Irreflexive(less, xs[i]);
    }
    DistinctCard(xs);
  }

  lemma Irreflexive<T(!new)>(less: (T, T) -> bool, x: T)
    requires StrictTotal(less)
    ensures !less(x, x)
  {
  }

  /** Enumerates a set of strings in no particular order, then sorts. */
  method SortedSet(s: set<string>) returns (out: seq<string>)
    ensures Lists(StrLess, out, s)
  {
    var rest := s;
    out := [];
    while rest != {}
      invariant Distinct(out) && Elems(out) !! rest && Elems(out) + rest == s
      decreases |rest|
    {
      var h :| h in rest;
      rest := rest - {h};
      assert h !in Elems(out);
      out := out + [h];
    }
    StrLessStrictTotal();
    SortListing(StrLess, out);
    out := Sort(StrLess, out);
  }
}
