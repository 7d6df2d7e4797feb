/** Sorting a list by a comparison, as Go's sort.Slice promises it: a permutation, ordered, ties in any order. */
module Sorting {

  ghost predicate StrictWeakOrder<T(!new)>(before: (T, T) -> bool) {
    && (forall a, b :: before(a, b) ==> !before(b, a))
    && (forall a, b, c :: !before(b, a) && !before(c, b) ==> !before(c, a))
  }

  predicate Ordered<T>(xs: seq<T>, before: (T, T) -> bool) {
    forall i, j :: 0 <= i < j < |xs| ==> !before(xs[j], xs[i])
  }

  function Inserted<T>(xs: seq<T>, x: T, i: nat): (ys: seq<T>)
    requires i <= |xs|
    ensures multiset(ys) == multiset(xs) + multiset{x}
  {
    assert xs == xs[..i] + xs[i..];
    xs[..i] + [x] + xs[i..]
  }

  lemma NotBeforeRest<T(!new)>(xs: seq<T>, x: T, i: nat, before: (T, T) -> bool, k: nat)
    requires StrictWeakOrder(before) && Ordered(xs, before) && k < i <= |xs| && !before(x, xs[i - 1])
    ensures !before(x, xs[k])
  {
  }

  lemma InsertedOrdered<T(!new)>(xs: seq<T>, x: T, i: nat, before: (T, T) -> bool)
    requires Ordered(xs, before) && i <= |xs|
    requires forall k :: 0 <= k < i ==> !before(x, xs[k])
    requires forall k :: i <= k < |xs| ==> !before(xs[k], x)
    ensures Ordered(Inserted(xs, x, i), before)
  {
  }

  lemma Asymmetric<T(!new)>(before: (T, T) -> bool, a: T, b: T)
    requires StrictWeakOrder(before) && before(a, b)
    ensures !before(b, a)
  {
  }

  method Insert<T(!new)>(xs: seq<T>, x: T, before: (T, T) -> bool) returns (ys: seq<T>)
    requires StrictWeakOrder(before) && Ordered(xs, before)
    ensures Ordered(ys, before) && multiset(ys) == multiset(xs) + multiset{x}
  {
    var i := |xs|;
    while i > 0 && before(x, xs[i - 1])
      invariant 0 <= i <= |xs|
      invariant forall k :: i <= k < |xs| ==> !before(xs[k], x)
    {
      Asymmetric(before, x, xs[i - 1]);
      i := i - 1;
    }
    forall k | 0 <= k < i ensures !before(x, xs[k]) {
      NotBeforeRest(xs, x, i, before, k);
    }
    InsertedOrdered(xs, x, i, before);
    ys := Inserted(xs, x, i);
  }

  method Sort<T(!new)>(xs: seq<T>, before: (T, T) -> bool) returns (ys: seq<T>)
    requires StrictWeakOrder(before)
    ensures Ordered(ys, before) && multiset(ys) == multiset(xs)
  {
    ys := [];
    for n := 0 to |xs|
      invariant Ordered(ys, before) && multiset(ys) == multiset(xs[..n])
    {
      assert xs[..n + 1] == xs[..n] + [xs[n]];
      ys := Insert(ys, xs[n], before);
    }
    assert xs[..|xs|] == xs;
  }

  lemma SameMembers<T(!new)>(xs: seq<T>, ys: seq<T>)
    requires multiset(xs) == multiset(ys)
    ensures |xs| == |ys| && forall x :: x in xs <==> x in ys
  {
    assert |multiset(xs)| == |xs| && |multiset(ys)| == |ys|;
    forall x ensures x in xs <==> x in ys {
      assert x in xs <==> x in multiset(xs);
      assert x in ys <==> x in multiset(ys);
    }
  }
}
