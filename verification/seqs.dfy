/** Sequence helpers shared by the slot and token stores: `findIndex`, `filter`
    and distinctness of id lists. */
module Seqs {

  /** No id occurs twice. */
  ghost predicate Distinct(s: seq<nat>) {
    forall i, j :: 0 <= i < j < |s| ==> s[i] != s[j]
  }

  /** JavaScript's `findIndex` on an id list: the first position holding `x`, or -1. */
  function FindIndex(s: seq<nat>, x: nat): (r: int)
    ensures -1 <= r < |s|
    ensures r < 0 <==> x !in s
    ensures 0 <= r ==> s[r] == x && forall i :: 0 <= i < r ==> s[i] != x
  {
    if |s| == 0 then -1
    else if s[0] == x then 0
    else
      var r := FindIndex(s[1..], x);
      if r < 0 then -1 else r + 1
  }

  /** In a duplicate-free list the first occurrence of an element is its position. */
  lemma FindIndexDistinct(s: seq<nat>, i: int)
    requires Distinct(s)
    requires 0 <= i < |s|
    ensures FindIndex(s, s[i]) == i
  {
  }

  /** Appending never moves the first occurrence of an element already present. */
  lemma FindIndexAppend(s: seq<nat>, t: seq<nat>, x: nat)
    requires x in s
    ensures FindIndex(s + t, x) == FindIndex(s, x)
  {
    var r := FindIndex(s, x);
    var q := FindIndex(s + t, x);
    assert (s + t)[r] == x;
    assert q <= r;
    assert (s + t)[q] == s[q];
  }

  /** JavaScript's `filter`: the elements satisfying `p`, in their original order. */
  function Filter<T>(s: seq<T>, p: T -> bool): (r: seq<T>)
    ensures |r| <= |s|
    ensures forall i :: 0 <= i < |r| ==> r[i] in s && p(r[i])
    ensures forall i :: 0 <= i < |s| && p(s[i]) ==> s[i] in r
  {
    if |s| == 0 then []
    else (if p(s[0]) then [s[0]] else []) + Filter(s[1..], p)
  }

  /** Filtering distributes over concatenation, so it keeps the original order. */
  lemma {:induction false} FilterAppend<T>(a: seq<T>, b: seq<T>, p: T -> bool)
    ensures Filter(a + b, p) == Filter(a, p) + Filter(b, p)
  {
    if |a| == 0 {
      assert a + b == b;
    } else {
      assert (a + b)[1..] == a[1..] + b;
      FilterAppend(a[1..], b, p);
    }
  }

  /** A filter that rejects nothing returns its input unchanged. */
  lemma {:induction false} FilterKeepsAll<T>(s: seq<T>, p: T -> bool)
    requires forall i :: 0 <= i < |s| ==> p(s[i])
    ensures Filter(s, p) == s
  {
    if |s| != 0 {
      FilterKeepsAll(s[1..], p);
    }
  }

  /** Filtering a duplicate-free id list keeps it duplicate-free. */
  lemma {:induction false} FilterDistinct(s: seq<nat>, p: nat -> bool)
    requires Distinct(s)
    ensures Distinct(Filter(s, p))
  {
    if |s| != 0 {
      FilterDistinct(s[1..], p);
      assert s[0] !in s[1..];
    }
  }

  /** Dropping one id that occurs exactly once shortens the list by exactly one. */
  lemma {:induction false} FilterDropsOne(s: seq<nat>, x: nat)
    requires Distinct(s)
    requires x in s
    ensures |Filter(s, (y: nat) => y != x)| == |s| - 1
  {
    if s[0] == x {
      assert x !in s[1..];
      FilterKeepsAll(s[1..], (y: nat) => y != x);
    } else {
      FilterDropsOne(s[1..], x);
    }
  }
}
