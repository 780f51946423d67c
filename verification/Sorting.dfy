/** std::sort over the first n elements of an array: a permutation of them without
    inversions. How ties are ordered is left open, as std::sort leaves it. */
module Sorting {
  import opened Sets

  ghost predicate WeakOrder<T(!new)>(less: (T, T) -> bool) {
    && (forall a, b :: less(a, b) ==> !less(b, a))
    && (forall a, b, c :: !less(a, b) && !less(b, c) ==> !less(a, c))
  }

  ghost predicate Ordered<T(!new)>(s: seq<T>, less: (T, T) -> bool) {
    forall i, j :: 0 <= i < j < |s| ==> !less(s[j], s[i])
  }

  function Put<T>(s: seq<T>, e: T, less: (T, T) -> bool): seq<T> {
    if s == [] || less(e, s[0]) then [e] + s else [s[0]] + Put(s[1..], e, less)
  }

  function Sorted<T>(s: seq<T>, less: (T, T) -> bool): seq<T> {
    if s == [] then [] else Put(Sorted(s[1..], less), s[0], less)
  }

  lemma {:induction false} PutPermutes<T>(s: seq<T>, e: T, less: (T, T) -> bool)
    ensures multiset(Put(s, e, less)) == multiset(s) + multiset{e}
  {
    if s == [] || less(e, s[0]) {
    } else {
      PutPermutes(s[1..], e, less);
      assert s == [s[0]] + s[1..];
    }
  }

  lemma ConsIsOrdered<T(!new)>(x: T, s: seq<T>, less: (T, T) -> bool)
    requires Ordered(s, less) && forall y :: y in s ==> !less(y, x)
    ensures Ordered([x] + s, less)
  {
    var r := [x] + s;
    forall i, j | 0 <= i < j < |r|
      ensures !less(r[j], r[i])
    {
      assert r[j] == s[j - 1];
    }
  }

  lemma {:induction false} PutIsOrdered<T(!new)>(s: seq<T>, e: T, less: (T, T) -> bool)
    requires WeakOrder(less) && Ordered(s, less)
    ensures Ordered(Put(s, e, less), less)
  {
    if s == [] {
      ConsIsOrdered(e, s, less);
    } else if less(e, s[0]) {
      forall y | y in s
        ensures !less(y, e)
      {
        var j :| 0 <= j < |s| && s[j] == y;
        assert !less(s[j], s[0]) && !less(s[0], e);
      }
      ConsIsOrdered(e, s, less);
    } else {
      var rest := Put(s[1..], e, less);
      PutIsOrdered(s[1..], e, less);
      PutPermutes(s[1..], e, less);
      forall y | y in rest
        ensures !less(y, s[0])
      {
        assert y in multiset(rest);
        assert y == e || y in s[1..];
      }
      ConsIsOrdered(s[0], rest, less);
    }
  }

  lemma {:induction false} SortedIsOrdered<T(!new)>(s: seq<T>, less: (T, T) -> bool)
    requires WeakOrder(less)
    ensures Ordered(Sorted(s, less), less)
    ensures multiset(Sorted(s, less)) == multiset(s)
  {
    if s == [] {
    } else {
      SortedIsOrdered(s[1..], less);
      PutIsOrdered(Sorted(s[1..], less), s[0], less);
      PutPermutes(Sorted(s[1..], less), s[0], less);
      assert s == [s[0]] + s[1..];
    }
  }

  method SortPrefix<T(!new)>(a: array<T>, n: nat, less: (T, T) -> bool)
    requires n <= a.Length && WeakOrder(less)
    modifies a
    ensures Ordered(a[..n], less)
    ensures multiset(a[..n]) == multiset(old(a[..n]))
    ensures a[n..] == old(a[n..])
  {
    var s := Sorted(a[..n], less);
    SortedIsOrdered(a[..n], less);
    PermutationFacts(s, a[..n]);
    for i := 0 to n
      invariant forall k :: 0 <= k < i ==> a[k] == s[k]
      invariant a[n..] == old(a[n..])
    {
      a[i] := s[i];
    }
    assert a[..n] == s;
  }
}
