/** Datatypes and finite-set facts that every component uses. */
module Common {

  datatype Option<+T> = None | Some(value: T)

  datatype Result<+T, +E> = Ok(value: T) | Err(error: E)

  /** One stored byte, and a buffer of them. */
  type byte = b: int | 0 <= b < 256
  type Bytes = seq<byte>

  /** A content-address: the text a chunk is filed under. */
  type Hash = string

  const TWO_32: nat := 0x1_0000_0000
  const TWO_64: nat := 0x1_0000_0000_0000_0000

  /** Unsigned arithmetic wraps at 64 bits; a 32-bit field keeps the low half. */
  function Wrap64(n: nat): nat { n % TWO_64 }

  function Cut32(n: nat): nat { n % TWO_32 }

  lemma SubsetCard<T>(a: set<T>, b: set<T>)
    requires a <= b
    ensures |a| <= |b|
    ensures |a| == |b| ==> a == b
  {
    assert b == a + (b - a);
  }

  /** A set too large to fit inside another has a member outside it. */
  lemma PickOutside<T>(a: set<T>, b: set<T>) returns (x: T)
    requires |b| < |a|
    ensures x in a && x !in b
  {
    if a <= b {
      SubsetCard(a, b);
      assert false;
    }
    x :| x in a && x !in b;
  }

  /** The node or list positions below `n`. */
  ghost function Range(n: nat): (r: set<int>)
    ensures |r| == n && forall i :: i in r <==> 0 <= i < n
  {
    if n == 0 then {} else Range(n - 1) + {n - 1}
  }

  /** Every member of a set, paired with the same second component. */
  ghost function Tag<A, B>(s: set<A>, b: B): set<(A, B)> {
    set x | x in s :: (x, b)
  }

  lemma TagMember<A, B>(s: set<A>, b: B, x: A)
    ensures (x, b) in Tag(s, b) <==> x in s
  {
  }

  lemma {:induction false} TagCard<A, B>(s: set<A>, b: B)
    ensures |Tag(s, b)| == |s|
    decreases |s|
  {
    if s != {} {
      var y :| y in s;
      TagCard(s - {y}, b);
      assert Tag(s, b) == Tag(s - {y}, b) + {(y, b)};
    }
  }

  lemma NonEmptyInts(s: set<int>)
    requires s != {}
    ensures exists x :: x in s
  {
    assert (forall x :: x !in s) ==> s == {};
  }

  /** The least member of a non-empty set of integers that is bounded below. */
  ghost function Min(s: set<int>): (m: int)
    requires s != {}
    ensures m in s
    ensures forall x :: x in s ==> m <= x
    decreases |s|
  {
    NonEmptyInts(s);
    var x :| x in s;
    if s == {x} then x
    else
      assert s == (s - {x}) + {x};
      var m := Min(s - {x});
      if x < m then x else m
  }

  /** The members of a sequence. */
  ghost function Elems<T>(xs: seq<T>): set<T> {
    set x | x in xs
  }

  lemma ElemsEmpty<T>(xs: seq<T>)
    ensures Elems(xs) == {} <==> xs == []
  {
    if xs != [] { assert xs[0] in Elems(xs); }
  }

  ghost predicate Distinct<T>(xs: seq<T>) {
    forall i, j :: 0 <= i < j < |xs| ==> xs[i] != xs[j]
  }

  /** A sequence without repetition is as long as its set of members. */
  lemma {:induction false} DistinctCard<T>(xs: seq<T>)
    requires Distinct(xs)
    ensures |Elems(xs)| == |xs|
    decreases |xs|
  {
    if xs != [] {
      var n := |xs| - 1;
      DistinctCard(xs[..n]);
      assert xs == xs[..n] + [xs[n]];
      assert Elems(xs) == Elems(xs[..n]) + {xs[n]};
      assert xs[n] !in xs[..n];
    }
  }
}
