/**
  Row selection: `WHERE` clauses keep the rows a predicate accepts, in
  storage order.
 */
module Seqs {
  import opened Wrappers

  /** The first element `keep` accepts (SQLite's `fetchone` on a `WHERE` query). */
  function Find<T(==)>(xs: seq<T>, keep: T -> bool): (r: Option<T>)
    ensures r.None? <==> forall i :: 0 <= i < |xs| ==> !keep(xs[i])
    ensures r.Some? ==> r.value in xs && keep(r.value)
    ensures r.Some? ==> exists k :: 0 <= k < |xs| && xs[k] == r.value && forall i :: 0 <= i < k ==> !keep(xs[i])
  {
    if |xs| == 0 then None
    else if keep(xs[0]) then Some(xs[0])
    else
      var r := Find(xs[1..], keep);
      assert forall i :: 1 <= i < |xs| ==> xs[i] == xs[1..][i - 1];
      if r.Some? then
        var k :| 0 <= k < |xs[1..]| && xs[1..][k] == r.value && forall i :: 0 <= i < k ==> !keep(xs[1..][i]);
        assert xs[k + 1] == r.value;
        r
      else r
  }

  /** The elements of `xs` that `keep` accepts, in their original order. */
  function Filter<T(!new)>(xs: seq<T>, keep: T -> bool): (r: seq<T>)
    ensures |r| <= |xs|
    ensures forall i :: 0 <= i < |r| ==> r[i] in xs && keep(r[i])
    ensures forall i :: 0 <= i < |xs| && keep(xs[i]) ==> xs[i] in r
    ensures (forall i :: 0 <= i < |xs| ==> keep(xs[i])) ==> r == xs
    ensures |r| == |xs| <==> forall i :: 0 <= i < |xs| ==> keep(xs[i])
    ensures multiset(r) <= multiset(xs)
    ensures forall x :: multiset(r)[x] == if keep(x) then multiset(xs)[x] else 0
  {
    if |xs| == 0 then []
    else
      var rest := Filter(xs[1..], keep);
      var r := if keep(xs[0]) then [xs[0]] + rest else rest;
      ConsMembers(xs, keep, rest, r);
      ConsCount(xs, keep, rest, r);
      r
  }

  /** `Filter` unfolded by one element. */
  lemma FilterCons<T(!new)>(xs: seq<T>, keep: T -> bool)
    requires |xs| > 0
    ensures Filter(xs, keep) == if keep(xs[0]) then [xs[0]] + Filter(xs[1..], keep) else Filter(xs[1..], keep)
  {
  }

  /** Membership after one more step of `Filter`, given the facts for the tail. */
  lemma ConsMembers<T>(xs: seq<T>, keep: T -> bool, rest: seq<T>, r: seq<T>)
    requires |xs| > 0
    requires forall i :: 0 <= i < |rest| ==> rest[i] in xs[1..] && keep(rest[i])
    requires forall i :: 0 <= i < |xs[1..]| && keep(xs[1..][i]) ==> xs[1..][i] in rest
    requires r == if keep(xs[0]) then [xs[0]] + rest else rest
    ensures forall i :: 0 <= i < |r| ==> r[i] in xs && keep(r[i])
    ensures forall i :: 0 <= i < |xs| && keep(xs[i]) ==> xs[i] in r
  {
    forall i | 0 <= i < |r| ensures r[i] in xs && keep(r[i]) {
      if keep(xs[0]) && i == 0 {
        assert r[i] == xs[0];
      } else {
        var j := if keep(xs[0]) then i - 1 else i;
        assert r[i] == rest[j];
        var k :| 0 <= k < |xs[1..]| && xs[1..][k] == rest[j];
        assert xs[k + 1] == r[i];
      }
    }
    forall i | 0 <= i < |xs| && keep(xs[i]) ensures xs[i] in r {
      if i > 0 {
        assert xs[i] == xs[1..][i - 1];
      }
    }
  }

  /** Length and multiset facts after one more step of `Filter`, given the facts for the tail. */
  lemma ConsCount<T>(xs: seq<T>, keep: T -> bool, rest: seq<T>, r: seq<T>)
    requires |xs| > 0
    requires |rest| <= |xs[1..]|
    requires (forall i :: 0 <= i < |xs[1..]| ==> keep(xs[1..][i])) ==> rest == xs[1..]
    requires |rest| == |xs[1..]| <==> forall i :: 0 <= i < |xs[1..]| ==> keep(xs[1..][i])
    requires multiset(rest) <= multiset(xs[1..])
    requires forall x :: multiset(rest)[x] == if keep(x) then multiset(xs[1..])[x] else 0
    requires r == if keep(xs[0]) then [xs[0]] + rest else rest
    ensures |r| <= |xs|
    ensures (forall i :: 0 <= i < |xs| ==> keep(xs[i])) ==> r == xs
    ensures |r| == |xs| <==> forall i :: 0 <= i < |xs| ==> keep(xs[i])
    ensures multiset(r) <= multiset(xs)
    ensures forall x :: multiset(r)[x] == if keep(x) then multiset(xs)[x] else 0
  {
    var tail := xs[1..];
    assert xs == [xs[0]] + tail;
    assert multiset(xs) == multiset{xs[0]} + multiset(tail);
    assert multiset(r) == (if keep(xs[0]) then multiset{xs[0]} else multiset{}) + multiset(rest);
    assert forall i :: 0 <= i < |tail| ==> tail[i] == xs[i + 1];
    assert (forall i :: 0 <= i < |xs| ==> keep(xs[i])) <==> keep(xs[0]) && forall i :: 0 <= i < |tail| ==> keep(tail[i]);
  }

  /** Any reordering of a filter result holds exactly the accepted elements. */
  lemma PermutedFilter<T(!new)>(xs: seq<T>, keep: T -> bool, r: seq<T>)
    requires multiset(r) == multiset(Filter(xs, keep))
    ensures forall k :: 0 <= k < |r| ==> r[k] in xs && keep(r[k])
    ensures forall i :: 0 <= i < |xs| && keep(xs[i]) ==> xs[i] in r
  {
    var f := Filter(xs, keep);
    forall k | 0 <= k < |r| ensures r[k] in xs && keep(r[k]) {
      assert r[k] in multiset(f);
      var j :| 0 <= j < |f| && f[j] == r[k];
    }
    forall i | 0 <= i < |xs| && keep(xs[i]) ensures xs[i] in r {
      assert xs[i] in multiset(f);
    }
  }

  /** `rel` holds between every element and each element after it. */
  predicate Pairwise<T>(xs: seq<T>, rel: (T, T) -> bool)
  {
    forall i, j :: 0 <= i < j < |xs| ==> rel(xs[i], xs[j])
  }

  /** Dropping elements keeps every relation that held between all earlier and later ones. */
  lemma {:induction false} FilterKeepsPairwise<T(!new)>(xs: seq<T>, keep: T -> bool, rel: (T, T) -> bool)
    requires Pairwise(xs, rel)
    ensures Pairwise(Filter(xs, keep), rel)
  {
    if |xs| > 0 {
      var rest := Filter(xs[1..], keep);
      assert Pairwise(xs[1..], rel) by {
        forall i, j | 0 <= i < j < |xs[1..]| ensures rel(xs[1..][i], xs[1..][j]) {
          assert xs[1..][i] == xs[i + 1] && xs[1..][j] == xs[j + 1];
        }
      }
      FilterKeepsPairwise(xs[1..], keep, rel);
      if keep(xs[0]) {
        var r := [xs[0]] + rest;
        forall i, j | 0 <= i < j < |r| ensures rel(r[i], r[j]) {
          if i == 0 {
            assert r[j] in xs[1..];
            var k :| 0 <= k < |xs[1..]| && xs[1..][k] == r[j];
            assert xs[k + 1] == r[j];
          }
        }
      }
    }
  }
}
