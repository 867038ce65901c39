/** A stable sort by key, standing for std::sort and std::list::sort. */
module Sorting {
  function Insert<T>(x: T, xs: seq<T>, key: T -> int): seq<T> {
    if xs == [] || key(x) <= key(xs[0]) then [x] + xs else [xs[0]] + Insert(x, xs[1..], key)
  }

  function Sort<T>(xs: seq<T>, key: T -> int): seq<T> {
    if xs == [] then [] else Insert(xs[0], Sort(xs[1..], key), key)
  }

  ghost predicate Ordered<T>(xs: seq<T>, key: T -> int) {
    forall i, j :: 0 <= i < j < |xs| ==> key(xs[i]) <= key(xs[j])
  }

  lemma {:induction false} InsertPermutes<T>(x: T, xs: seq<T>, key: T -> int)
    ensures multiset(Insert(x, xs, key)) == multiset(xs) + multiset{x}
  {
    if xs != [] && key(x) > key(xs[0]) {
      InsertPermutes(x, xs[1..], key);
      assert xs == [xs[0]] + xs[1..];
    }
  }

  lemma {:induction false} InsertOrders<T>(x: T, xs: seq<T>, key: T -> int)
    requires Ordered(xs, key)
    ensures Ordered(Insert(x, xs, key), key)
  {
    if xs != [] && key(x) > key(xs[0]) {
      InsertOrders(x, xs[1..], key);
      var ys := Insert(x, xs[1..], key);
      InsertPermutes(x, xs[1..], key);
      forall i | 0 <= i < |ys|
        ensures key(xs[0]) <= key(ys[i])
      {
        assert ys[i] in multiset(ys);
        assert ys[i] == x || ys[i] in xs[1..];
      }
    }
  }

  lemma {:induction false} SortOrders<T>(xs: seq<T>, key: T -> int)
    ensures Ordered(Sort(xs, key), key) && multiset(Sort(xs, key)) == multiset(xs)
  {
    if xs != [] {
      SortOrders(xs[1..], key);
      InsertOrders(xs[0], Sort(xs[1..], key), key);
      InsertPermutes(xs[0], Sort(xs[1..], key), key);
      assert xs == [xs[0]] + xs[1..];
    }
  }

  /** The elements with key k, in order. */
  function WithKey<T>(xs: seq<T>, key: T -> int, k: int): seq<T> {
    if xs == [] then [] else (if key(xs[0]) == k then [xs[0]] else []) + WithKey(xs[1..], key, k)
  }

  lemma {:induction false} InsertIsStable<T>(x: T, xs: seq<T>, key: T -> int, k: int)
    requires Ordered(xs, key)
    ensures WithKey(Insert(x, xs, key), key, k) == (if key(x) == k then [x] else []) + WithKey(xs, key, k)
  {
    var x' := if key(x) == k then [x] else [];
    if xs != [] && key(x) > key(xs[0]) {
      InsertIsStable(x, xs[1..], key, k);
      var first, rest := if key(xs[0]) == k then [xs[0]] else [], WithKey(xs[1..], key, k);
      assert Insert(x, xs, key)[1..] == Insert(x, xs[1..], key);
      assert WithKey(xs, key, k) == first + rest;
      hide WithKey, Insert;
      assert x' == [] || first == [];
      assert first + (x' + rest) == x' + (first + rest);
    } else {
      assert ([x] + xs)[1..] == xs;
    }
  }

  /** Elements with equal keys stay in their order. */
  lemma {:induction false} SortIsStable<T>(xs: seq<T>, key: T -> int, k: int)
    ensures WithKey(Sort(xs, key), key, k) == WithKey(xs, key, k)
  {
    if xs != [] {
      SortIsStable(xs[1..], key, k);
      SortOrders(xs[1..], key);
      InsertIsStable(xs[0], Sort(xs[1..], key), key, k);
    }
  }

  lemma {:induction false} NoneTwice<T>(xs: seq<T>, x: T)
    requires forall i, j :: 0 <= i < j < |xs| ==> xs[i] != xs[j]
    ensures multiset(xs)[x] <= 1
  {
    if xs != [] {
      NoneTwice(xs[1..], x);
      assert xs == [xs[0]] + xs[1..];
    }
  }

  lemma SomeTwice<T>(xs: seq<T>, i: nat, j: nat)
    requires i < j < |xs| && xs[i] == xs[j]
    ensures multiset(xs)[xs[i]] >= 2
  {
    assert xs == xs[..i + 1] + xs[i + 1..];
    assert xs[i] in xs[..i + 1] && xs[i] == xs[i + 1..][j - i - 1];
  }

  function SortInts(xs: seq<int>): seq<int> {
    Sort(xs, (x: int) => x)
  }

  /** Sorting distinct numbers puts them in strictly increasing order. */
  lemma SortDistinct(xs: seq<int>)
    requires forall i, j :: 0 <= i < j < |xs| ==> xs[i] != xs[j]
    ensures |SortInts(xs)| == |xs| && forall i, j :: 0 <= i < j < |xs| ==> SortInts(xs)[i] < SortInts(xs)[j]
    ensures forall x :: x in SortInts(xs) <==> x in xs
  {
    var ys := SortInts(xs);
    SortOrders(xs, (x: int) => x);
    assert |ys| == |multiset(ys)| == |xs|;
    forall x
      ensures x in ys <==> x in xs
    {
      assert x in multiset(ys) <==> x in multiset(xs);
    }
    forall i, j | 0 <= i < j < |ys|
      ensures ys[i] < ys[j]
    {
      NoneTwice(xs, ys[i]);
      if ys[i] == ys[j] {
        SomeTwice(ys, i, j);
      }
    }
  }
}
