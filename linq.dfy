/**
  The LINQ operators the queries use (Where, Select, FirstOrDefault, Any,
  Skip, Take), on sequences, with the facts about ordering and uniqueness
  that the controllers rely on.
 */
module Linq {
  import opened Wrappers

  /** Enumerable.Select. */
  function Select<T, U>(xs: seq<T>, f: T -> U): (r: seq<U>)
    ensures |r| == |xs|
    ensures forall i :: 0 <= i < |xs| ==> r[i] == f(xs[i])
  {
    seq(|xs|, i requires 0 <= i < |xs| => f(xs[i]))
  }

  /** Enumerable.Where: exactly the elements that satisfy keep. */
  function Where<T>(xs: seq<T>, keep: T -> bool): (r: seq<T>)
    ensures |r| <= |xs|
    ensures forall i :: 0 <= i < |r| ==> r[i] in xs && keep(r[i])
    ensures forall i :: 0 <= i < |xs| && keep(xs[i]) ==> xs[i] in r
    decreases |xs|
  {
    if xs == [] then []
    else
      assert xs == [xs[0]] + xs[1..];
      if keep(xs[0]) then [xs[0]] + Where(xs[1..], keep) else Where(xs[1..], keep)
  }

  /** Where keeps the elements in their order: the kept elements of a prefix come first. */
  lemma {:induction false} WhereAppend<T>(xs: seq<T>, ys: seq<T>, keep: T -> bool)
    ensures Where(xs + ys, keep) == Where(xs, keep) + Where(ys, keep)
    decreases |xs|
  {
    if xs != [] {
      assert (xs + ys)[1..] == xs[1..] + ys;
      WhereAppend(xs[1..], ys, keep);
    } else {
      assert xs + ys == ys;
    }
  }

  /** Where drops at least one element when some element fails keep. */
  lemma {:induction false} WhereDropsSome<T>(xs: seq<T>, keep: T -> bool, k: nat)
    requires k < |xs| && !keep(xs[k])
    ensures |Where(xs, keep)| < |xs|
    decreases |xs|
  {
    if k > 0 {
      assert xs[1..][k - 1] == xs[k];
      WhereDropsSome(xs[1..], keep, k - 1);
    }
  }

  /** The index of the first element satisfying p: FirstOrDefault, located. */
  function FirstWhere<T>(xs: seq<T>, p: T -> bool): (r: Option<nat>)
    ensures r.Some? ==> r.value < |xs| && p(xs[r.value])
    ensures r.Some? ==> forall i :: 0 <= i < r.value ==> !p(xs[i])
    ensures r.None? <==> forall i :: 0 <= i < |xs| ==> !p(xs[i])
    decreases |xs|
  {
    if xs == [] then None
    else if p(xs[0]) then Some(0)
    else
      match FirstWhere(xs[1..], p)
      case None =>
        assert forall i :: 1 <= i < |xs| ==> xs[i] == xs[1..][i - 1];
        None
      case Some(k) =>
        assert forall i :: 1 <= i <= k ==> xs[i] == xs[1..][i - 1];
        Some(k + 1)
  }

  /** Enumerable.Any. */
  predicate Any<T>(xs: seq<T>, p: T -> bool) {
    exists i :: 0 <= i < |xs| && p(xs[i])
  }

  lemma AnyIffFirstWhere<T>(xs: seq<T>, p: T -> bool)
    ensures Any(xs, p) <==> FirstWhere(xs, p).Some?
  {
    if FirstWhere(xs, p).Some? {
      var k := FirstWhere(xs, p).value;
      assert p(xs[k]);
    }
  }

  /** Enumerable.Skip: a count at or below zero skips nothing, one past the end leaves nothing. */
  function Skip<T>(xs: seq<T>, n: int): seq<T> {
    if n <= 0 then xs else if n >= |xs| then [] else xs[n..]
  }

  /** Enumerable.Take: a count at or below zero takes nothing. */
  function Take<T>(xs: seq<T>, n: int): seq<T> {
    if n <= 0 then [] else if n >= |xs| then xs else xs[..n]
  }

  // ---------------------------------------------------------------------
  // Keys that increase or do not repeat along a sequence

  ghost predicate IncreasingBy<T>(xs: seq<T>, key: T -> int) {
    forall i, j :: 0 <= i < j < |xs| ==> key(xs[i]) < key(xs[j])
  }

  ghost predicate DistinctBy<T, K>(xs: seq<T>, key: T -> K) {
    forall i, j :: 0 <= i < j < |xs| ==> key(xs[i]) != key(xs[j])
  }

  lemma IncreasingIsDistinct<T>(xs: seq<T>, key: T -> int)
    requires IncreasingBy(xs, key)
    ensures DistinctBy(xs, key)
  {
  }

  /** Filtering keeps a strictly increasing key strictly increasing. */
  lemma {:induction false} WhereKeepsIncreasing<T>(xs: seq<T>, keep: T -> bool, key: T -> int)
    requires IncreasingBy(xs, key)
    ensures IncreasingBy(Where(xs, keep), key)
    decreases |xs|
  {
    if xs != [] {
      var tail := xs[1..];
      assert IncreasingBy(tail, key) by {
        assert forall i :: 0 <= i < |tail| ==> tail[i] == xs[i + 1];
      }
      WhereKeepsIncreasing(tail, keep, key);
      if keep(xs[0]) {
        var rest := Where(tail, keep);
        forall k | 0 <= k < |rest|
          ensures key(xs[0]) < key(rest[k])
        {
          var j :| 0 <= j < |tail| && tail[j] == rest[k];
          assert xs[j + 1] == rest[k];
        }
        ConsKeepsIncreasing(xs[0], rest, key);
      }
    }
  }

  lemma ConsKeepsIncreasing<T>(x: T, rest: seq<T>, key: T -> int)
    requires IncreasingBy(rest, key)
    requires forall k :: 0 <= k < |rest| ==> key(x) < key(rest[k])
    ensures IncreasingBy([x] + rest, key)
  {
    var r := [x] + rest;
    forall i, j | 0 <= i < j < |r|
      ensures key(r[i]) < key(r[j])
    {
      assert r[j] == rest[j - 1];
      if i > 0 {
        assert r[i] == rest[i - 1];
      }
    }
  }

  /** Filtering keeps a key that never repeats from repeating. */
  lemma {:induction false} WhereKeepsDistinct<T, K>(xs: seq<T>, keep: T -> bool, key: T -> K)
    requires DistinctBy(xs, key)
    ensures DistinctBy(Where(xs, keep), key)
    decreases |xs|
  {
    if xs != [] {
      var tail := xs[1..];
      assert DistinctBy(tail, key) by {
        assert forall i :: 0 <= i < |tail| ==> tail[i] == xs[i + 1];
      }
      WhereKeepsDistinct(tail, keep, key);
      if keep(xs[0]) {
        var rest := Where(tail, keep);
        forall k | 0 <= k < |rest|
          ensures key(xs[0]) != key(rest[k])
        {
          var j :| 0 <= j < |tail| && tail[j] == rest[k];
          assert xs[j + 1] == rest[k];
        }
        ConsKeepsDistinct(xs[0], rest, key);
      }
    }
  }

  lemma ConsKeepsDistinct<T, K>(x: T, rest: seq<T>, key: T -> K)
    requires DistinctBy(rest, key)
    requires forall k :: 0 <= k < |rest| ==> key(x) != key(rest[k])
    ensures DistinctBy([x] + rest, key)
  {
    var r := [x] + rest;
    forall i, j | 0 <= i < j < |r|
      ensures key(r[i]) != key(r[j])
    {
      assert r[j] == rest[j - 1];
      if i > 0 {
        assert r[i] == rest[i - 1];
      }
    }
  }

  /** Appending an element whose key exceeds every key keeps the keys increasing. */
  lemma AppendKeepsIncreasing<T>(xs: seq<T>, x: T, key: T -> int)
    requires IncreasingBy(xs, key)
    requires forall i :: 0 <= i < |xs| ==> key(xs[i]) < key(x)
    ensures IncreasingBy(xs + [x], key)
  {
    var r := xs + [x];
    assert forall i :: 0 <= i < |xs| ==> r[i] == xs[i];
  }

  /** Appending an element with a fresh key keeps the keys distinct. */
  lemma AppendKeepsDistinct<T, K>(xs: seq<T>, x: T, key: T -> K)
    requires DistinctBy(xs, key)
    requires forall i :: 0 <= i < |xs| ==> key(xs[i]) != key(x)
    ensures DistinctBy(xs + [x], key)
  {
    var r := xs + [x];
    assert forall i :: 0 <= i < |xs| ==> r[i] == xs[i];
  }

  // ---------------------------------------------------------------------
  // Projections of changed sequences

  lemma SelectAppend<T, U>(xs: seq<T>, x: T, f: T -> U)
    ensures Select(xs + [x], f) == Select(xs, f) + [f(x)]
  {
    var r := xs + [x];
    assert forall i :: 0 <= i < |xs| ==> r[i] == xs[i];
  }

  /** Replacing an element by one with the same key leaves the projection on the key as it was. */
  lemma SelectUpdateSameKey<T, U>(xs: seq<T>, i: nat, x: T, f: T -> U)
    requires i < |xs| && f(x) == f(xs[i])
    ensures Select(xs[i := x], f) == Select(xs, f)
  {
  }

  /** The key of an element that survives a filter is a key of the filtered sequence. */
  lemma SelectWhereMember<T, U>(xs: seq<T>, j: nat, keep: T -> bool, f: T -> U)
    requires j < |xs| && keep(xs[j])
    ensures f(xs[j]) in Select(Where(xs, keep), f)
  {
    var r := Where(xs, keep);
    assert xs[j] in r;
    var k :| 0 <= k < |r| && r[k] == xs[j];
    assert Select(r, f)[k] == f(xs[j]);
  }

  /** Replacing an element by one that p judges alike leaves FirstOrDefault where it was. */
  lemma FirstWhereUpdateAlike<T>(xs: seq<T>, i: nat, x: T, p: T -> bool)
    requires i < |xs| && p(x) == p(xs[i])
    ensures FirstWhere(xs[i := x], p) == FirstWhere(xs, p)
  {
    var ys := xs[i := x];
    assert forall k :: 0 <= k < |xs| ==> p(ys[k]) == p(xs[k]);
    var a, b := FirstWhere(ys, p), FirstWhere(xs, p);
    if a.Some? && b.Some? {
      assert !(a.value < b.value) && !(b.value < a.value);
    }
  }

  /** Under a key that does not repeat, every other element has a different key. */
  lemma DistinctFromOthers<T, K>(xs: seq<T>, k: nat, key: T -> K)
    requires DistinctBy(xs, key) && k < |xs|
    ensures forall j :: 0 <= j < |xs| && j != k ==> key(xs[j]) != key(xs[k])
  {
    forall j | 0 <= j < |xs| && j != k
      ensures key(xs[j]) != key(xs[k])
    {
      if j < k {
        assert key(xs[j]) != key(xs[k]);
      } else {
        assert key(xs[k]) != key(xs[j]);
      }
    }
  }
}
