/** Sequence helpers standing in for SQL's WHERE, ORDER BY, OFFSET and LIMIT. */
module Seqs {

  function Min(a: int, b: int): int { if a <= b then a else b }

  /** The elements of `xs` satisfying `p`, in their original order (SQL WHERE). */
  function Filter<T(==,!new)>(xs: seq<T>, p: T -> bool): (r: seq<T>)
    ensures |r| <= |xs|
    ensures forall x :: x in r <==> x in xs && p(x)
    ensures forall x :: multiset(r)[x] == if p(x) then multiset(xs)[x] else 0
  {
    if xs == [] then []
    else
      var rest := Filter(xs[1..], p);
      assert xs == [xs[0]] + xs[1..];
      if p(xs[0]) then [xs[0]] + rest else rest
  }

  /** `xs` is ordered by `key`, largest first (ORDER BY key DESC). */
  predicate SortedDesc<T>(xs: seq<T>, key: T -> int) {
    forall i, j :: 0 <= i < j < |xs| ==> key(xs[i]) >= key(xs[j])
  }

  /** The first element of a descending sequence carries its largest key. */
  lemma HeadIsLargest<T>(xs: seq<T>, key: T -> int, x: T)
    requires SortedDesc(xs, key) && x in xs
    ensures key(x) <= key(xs[0])
  {
    var i :| 0 <= i < |xs| && xs[i] == x;
    if i > 0 {
      assert key(xs[0]) >= key(xs[i]);
    }
  }

  /** An element no smaller than any of a descending sequence's may go in front of it. */
  lemma ConsDesc<T>(h: T, rest: seq<T>, key: T -> int)
    requires SortedDesc(rest, key)
    requires forall y :: y in rest ==> key(h) >= key(y)
    ensures SortedDesc([h] + rest, key)
  {
    var r := [h] + rest;
    forall i, j | 0 <= i < j < |r|
      ensures key(r[i]) >= key(r[j])
    {
      assert r[j] == rest[j - 1];
      if i > 0 {
        assert r[i] == rest[i - 1];
      }
    }
  }

  /** Inserts `x` into a descending sequence, before the first element not larger than it. */
  function InsertDesc<T(==,!new)>(x: T, xs: seq<T>, key: T -> int): (r: seq<T>)
    requires SortedDesc(xs, key)
    ensures SortedDesc(r, key)
    ensures multiset(r) == multiset(xs) + multiset{x}
    ensures forall y :: y in r <==> y == x || y in xs
  {
    if xs == [] || key(x) >= key(xs[0]) then
      assert forall y :: y in xs ==> key(x) >= key(y) by {
        forall y | y in xs
          ensures key(x) >= key(y)
        {
          HeadIsLargest(xs, key, y);
        }
      }
      ConsDesc(x, xs, key);
      [x] + xs
    else
      assert xs == [xs[0]] + xs[1..];
      assert SortedDesc(xs[1..], key);
      var rest := InsertDesc(x, xs[1..], key);
      assert forall y :: y in rest ==> key(xs[0]) >= key(y) by {
        forall y | y in rest
          ensures key(xs[0]) >= key(y)
        {
          if y != x {
            HeadIsLargest(xs, key, y);
          }
        }
      }
      ConsDesc(xs[0], rest, key);
      [xs[0]] + rest
  }

  /** A descending ordering of `xs`: the same elements, each as often, largest key first. */
  function SortDesc<T(==,!new)>(xs: seq<T>, key: T -> int): (r: seq<T>)
    ensures SortedDesc(r, key)
    ensures multiset(r) == multiset(xs)
    ensures |r| == |xs|
  {
    if xs == [] then []
    else
      assert xs == [xs[0]] + xs[1..];
      InsertDesc(xs[0], SortDesc(xs[1..], key), key)
  }

  /** The page of `xs` that OFFSET `skip` LIMIT `limit` selects. */
  function Window<T>(xs: seq<T>, skip: nat, limit: nat): (r: seq<T>)
    ensures |r| == if skip >= |xs| then 0 else Min(limit, |xs| - skip)
    ensures forall i :: 0 <= i < |r| ==> r[i] == xs[skip + i]
  {
    if skip >= |xs| then [] else xs[skip..skip + Min(limit, |xs| - skip)]
  }

  /** `r` is page (`skip`, `limit`) of some descending ordering of `rows`. */
  ghost predicate IsPageDesc<T(!new)>(r: seq<T>, rows: seq<T>, key: T -> int, skip: nat, limit: nat) {
    exists ordered: seq<T> ::
      && multiset(ordered) == multiset(rows)
      && SortedDesc(ordered, key)
      && r == Window(ordered, skip, limit)
  }
}
