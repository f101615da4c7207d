/**
  The Fisher–Yates shuffle of the test service
  (`shuffleArray` in src/modules/test/test.service.ts), which permutes an
  array in place, walking an index down from the last cell and swapping it
  with a randomly chosen cell at or below it.
 */
module Shuffle {
  import opened Tables

  /**
    The random choices of one shuffle of `n` cells: at index `i` it swaps
    with cell `picks[i]`, somewhere in [0, i], as
    `Math.floor(Math.random() * (i + 1))` chooses it.
   */
  predicate ValidPicks(picks: seq<nat>, n: nat)
  {
    |picks| == n && forall i :: 0 <= i < n ==> picks[i] <= i
  }

  /** `s` with the cells `i` and `j` exchanged. */
  function SwapAt<T>(s: seq<T>, i: nat, j: nat): (r: seq<T>)
    requires i < |s| && j < |s|
    ensures |r| == |s|
  {
    s[i := s[j]][j := s[i]]
  }

  /** The loop of the shuffle from index `hi` down to 1. */
  function ShuffleDown<T>(s: seq<T>, picks: seq<nat>, hi: nat): (r: seq<T>)
    requires hi < |s| && ValidPicks(picks, |s|)
    ensures |r| == |s|
    decreases hi
  {
    if hi == 0 then s else ShuffleDown(SwapAt(s, hi, picks[hi]), picks, hi - 1)
  }

  /** The whole shuffle of `s` under the choices `picks`. */
  function Shuffled<T>(s: seq<T>, picks: seq<nat>): (r: seq<T>)
    requires ValidPicks(picks, |s|)
    ensures |r| == |s|
  {
    if |s| == 0 then s else ShuffleDown(s, picks, |s| - 1)
  }

  /** Whatever the choices, the shuffle is a permutation of its input. */
  lemma {:induction false} ShuffleDownPermutes<T>(s: seq<T>, picks: seq<nat>, hi: nat)
    requires hi < |s| && ValidPicks(picks, |s|)
    ensures |ShuffleDown(s, picks, hi)| == |s|
    ensures multiset(ShuffleDown(s, picks, hi)) == multiset(s)
    decreases hi
  {
    if hi > 0 {
      ShuffleDownPermutes(SwapAt(s, hi, picks[hi]), picks, hi - 1);
    }
  }

  /** Whatever the choices, the shuffle is a permutation of its input. */
  lemma ShuffledPermutes<T>(s: seq<T>, picks: seq<nat>)
    requires ValidPicks(picks, |s|)
    ensures |Shuffled(s, picks)| == |s|
    ensures multiset(Shuffled(s, picks)) == multiset(s)
  {
    if |s| > 0 {
      ShuffleDownPermutes(s, picks, |s| - 1);
    }
  }

  /** Always choosing the current index leaves the order unchanged. */
  lemma {:induction false} StayingChoicesKeepOrder<T>(s: seq<T>, picks: seq<nat>, hi: nat)
    requires hi < |s| && ValidPicks(picks, |s|)
    requires forall i :: 0 <= i < |s| ==> picks[i] == i
    ensures ShuffleDown(s, picks, hi) == s
    decreases hi
  {
    if hi > 0 {
      assert SwapAt(s, hi, picks[hi]) == s;
      StayingChoicesKeepOrder(s, picks, hi - 1);
    }
  }

  /** Exchanging two cells commutes with any per-cell view. */
  lemma SwapAtMap<T, U>(s: seq<T>, f: T -> U, i: nat, j: nat)
    requires i < |s| && j < |s|
    ensures Map(SwapAt(s, i, j), f) == SwapAt(Map(s, f), i, j)
  {
    var l := Map(SwapAt(s, i, j), f);
    var r := SwapAt(Map(s, f), i, j);
    forall k | 0 <= k < |s|
      ensures l[k] == r[k]
    {
    }
  }

  /** The shuffle moves cells without looking at them, so it commutes with any per-cell view. */
  lemma {:induction false} ShuffleDownMap<T, U>(s: seq<T>, f: T -> U, picks: seq<nat>, hi: nat)
    requires hi < |s| && ValidPicks(picks, |s|)
    ensures Map(ShuffleDown(s, picks, hi), f) == ShuffleDown(Map(s, f), picks, hi)
    decreases hi
  {
    if hi > 0 {
      var t := SwapAt(s, hi, picks[hi]);
      SwapAtMap(s, f, hi, picks[hi]);
      ShuffleDownMap(t, f, picks, hi - 1);
    }
  }

  lemma ShuffledMap<T, U>(s: seq<T>, f: T -> U, picks: seq<nat>)
    requires ValidPicks(picks, |s|)
    ensures Map(Shuffled(s, picks), f) == Shuffled(Map(s, f), picks)
  {
    if |s| > 0 {
      ShuffleDownMap(s, f, picks, |s| - 1);
    }
  }

  /** `shuffleArray`: shuffles the array in place. */
  method ShuffleArray<T>(a: array<T>, picks: seq<nat>)
    requires ValidPicks(picks, a.Length)
    modifies a
    ensures a[..] == Shuffled(old(a[..]), picks)
    ensures multiset(a[..]) == multiset(old(a[..]))
  {
    ShuffledPermutes(a[..], picks);
    if a.Length == 0 {
      return;
    }
    var i := a.Length - 1;
    while i > 0
      invariant 0 <= i < a.Length
      invariant ShuffleDown(a[..], picks, i) == ShuffleDown(old(a[..]), picks, a.Length - 1)
    {
      var j := picks[i];
      ghost var before := a[..];
      a[i], a[j] := a[j], a[i];
      assert a[..] == SwapAt(before, i, j);
      i := i - 1;
    }
  }
}
