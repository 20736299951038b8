/** Random sampling without replacement, as lodash's `_.sampleSize(pool, n)`
    provides it. The randomness is not modelled: the positions the library
    picked are an input, constrained only by what the library guarantees. */
module Sampling {

  function Min(a: nat, b: nat): nat
  {
    if a <= b then a else b
  }

  /** `picks` are pairwise distinct positions of a pool of `poolSize` elements. */
  predicate DistinctPositions(picks: seq<nat>, poolSize: nat)
  {
    (forall i :: 0 <= i < |picks| ==> picks[i] < poolSize) &&
    (forall i, j :: 0 <= i < j < |picks| ==> picks[i] != picks[j])
  }

  /** What `_.sampleSize(pool, n)` may pick: min(n, |pool|) distinct positions,
      in any order. */
  predicate ValidPicks(picks: seq<nat>, poolSize: nat, n: nat)
  {
    |picks| == Min(n, poolSize) && DistinctPositions(picks, poolSize)
  }

  predicate Distinct<T(==)>(s: seq<T>)
  {
    forall i, j :: 0 <= i < j < |s| ==> s[i] != s[j]
  }

  /** The sample itself: the pool's elements at the picked positions. */
  function Sample<T(==)>(pool: seq<T>, picks: seq<nat>): (s: seq<T>)
    requires DistinctPositions(picks, |pool|)
    ensures |s| == |picks|
    ensures forall i :: 0 <= i < |s| ==> s[i] == pool[picks[i]]
    ensures Distinct(pool) ==> Distinct(s)
  {
    seq(|picks|, i requires 0 <= i < |picks| => pool[picks[i]])
  }

  /** The pool with position `p` removed, and the picks renumbered to match. */
  function Renumber(picks: seq<nat>, p: nat): (r: seq<nat>)
    requires forall i :: 0 <= i < |picks| ==> picks[i] != p
  {
    seq(|picks|, i requires 0 <= i < |picks| => if picks[i] < p then picks[i] else picks[i] - 1)
  }

  /** Renumbered picks are distinct positions of the shortened pool, and pick
      the same elements from it as the original picks did from the pool. */
  lemma RenumberPicksSame<T>(pool: seq<T>, rest: seq<nat>, p: nat)
    requires p < |pool|
    requires DistinctPositions(rest, |pool|)
    requires forall i :: 0 <= i < |rest| ==> rest[i] != p
    ensures DistinctPositions(Renumber(rest, p), |pool| - 1)
    ensures Sample(pool[..p] + pool[p + 1..], Renumber(rest, p)) == Sample(pool, rest)
  {
  }

  lemma MultisetWithout<T>(pool: seq<T>, p: nat)
    requires p < |pool|
    ensures multiset(pool) == multiset(pool[..p] + pool[p + 1..]) + multiset{pool[p]}
  {
    assert pool == pool[..p] + [pool[p]] + pool[p + 1..];
  }

  /** Sampling is without replacement: every element of the sample occurs in
      the pool at least as many times as in the sample. */
  lemma {:induction false} SampleWithoutReplacement<T>(pool: seq<T>, picks: seq<nat>)
    requires DistinctPositions(picks, |pool|)
    ensures multiset(Sample(pool, picks)) <= multiset(pool)
    decreases |picks|
  {
    if picks != [] {
      var p, rest := picks[0], picks[1..];
      var pool' := pool[..p] + pool[p + 1..];
      RenumberPicksSame(pool, rest, p);
      SampleWithoutReplacement(pool', Renumber(rest, p));
      assert Sample(pool, picks) == [pool[p]] + Sample(pool, rest);
      MultisetWithout(pool, p);
    }
  }
}
