/**
  Ordering of query results. SQLite's `ORDER BY … DESC` is modelled as a
  stable insertion sort on an integer key; ties keep storage order, which
  is one of the orders SQLite may return (the SQL leaves it unspecified).
 */
module Sorting {

  /** Keys never increase from left to right. */
  predicate SortedDesc<T>(xs: seq<T>, key: T -> int)
  {
    forall i, j :: 0 <= i < j < |xs| ==> key(xs[j]) <= key(xs[i])
  }

  /** Inserts `x` in front of the first element whose key is not larger. */
  function Insert<T>(x: T, xs: seq<T>, key: T -> int): (r: seq<T>)
    requires SortedDesc(xs, key)
    ensures SortedDesc(r, key)
    ensures multiset(r) == multiset(xs) + multiset{x}
    ensures |r| == |xs| + 1
    ensures r[0] == x || (|xs| > 0 && r[0] == xs[0])
  {
    if |xs| == 0 || key(xs[0]) <= key(x) then
      [x] + xs
    else
      var rest := Insert(x, xs[1..], key);
      assert key(rest[0]) <= key(xs[0]);
      assert xs == [xs[0]] + xs[1..];
      [xs[0]] + rest
  }

  /** A permutation of `xs` whose keys are in descending order. */
  function SortDesc<T>(xs: seq<T>, key: T -> int): (r: seq<T>)
    ensures SortedDesc(r, key)
    ensures multiset(r) == multiset(xs)
    ensures |r| == |xs|
  {
    if |xs| == 0 then []
    else
      assert xs == [xs[0]] + xs[1..];
      Insert(xs[0], SortDesc(xs[1..], key), key)
  }

  /**
    A prefix of a sorted sequence is sorted, holds part of its elements, and
    every key after the cut is at most every key before it.
   */
  lemma PrefixFacts<T>(xs: seq<T>, k: nat, key: T -> int)
    requires SortedDesc(xs, key)
    requires k <= |xs|
    ensures SortedDesc(xs[..k], key)
    ensures multiset(xs[..k]) + multiset(xs[k..]) == multiset(xs)
    ensures forall i, j :: 0 <= i < k <= j < |xs| ==> key(xs[j]) <= key(xs[i])
  {
    assert xs == xs[..k] + xs[k..];
  }

  /** Every element a sorted prefix leaves out keys no higher than any element it keeps. */
  lemma PrefixIsTop<T>(xs: seq<T>, k: nat, key: T -> int)
    requires SortedDesc(xs, key)
    requires k <= |xs|
    ensures forall x :: x in multiset(xs) - multiset(xs[..k]) ==> forall i :: 0 <= i < k ==> key(x) <= key(xs[i])
  {
    assert xs == xs[..k] + xs[k..];
    assert multiset(xs) - multiset(xs[..k]) == multiset(xs[k..]);
    forall x | x in multiset(xs) - multiset(xs[..k]) ensures forall i :: 0 <= i < k ==> key(x) <= key(xs[i]) {
      var j :| 0 <= j < |xs[k..]| && xs[k..][j] == x;
      assert x == xs[k + j];
    }
  }
}
