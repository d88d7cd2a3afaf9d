/** The Fisher-Yates shuffle of src/utils/arrayUtils.ts (`shuffle`), which
    src/utils/trialGenerator.ts repeats as `shuffleArray`. The shuffle works
    on a copy; sequences are values here, so the input is never changed. */
module Shuffling {
  import opened Sequences

  /** The swap partner of position `i` drawn at step `k`
      (`Math.floor(Math.random() * (i + 1))`): a position in `[0, i]`, and
      every such position is some draw. */
  function Partner(draws: seq<nat>, k: nat, i: nat): (j: nat)
    ensures j <= i
    ensures DrawAt(draws, k) <= i ==> j == DrawAt(draws, k)
  {
    Reduce(DrawAt(draws, k), i + 1)
  }

  /** Steps `i`, `i - 1`, ..., 1 of the loop, the step at position `i`
      reading draw `k`. */
  function ShuffleFrom<T>(s: seq<T>, draws: seq<nat>, i: nat, k: nat): (r: seq<T>)
    requires i < |s|
    ensures |r| == |s|
    decreases i
  {
    if i == 0 then s
    else ShuffleFrom(Swap(s, i, Partner(draws, k, i)), draws, i - 1, k + 1)
  }

  /** `shuffle(array)`; inputs of length zero or one come back unchanged. */
  function Shuffle<T>(a: seq<T>, draws: seq<nat>): (r: seq<T>)
    ensures |r| == |a|
    ensures |a| <= 1 ==> r == a
  {
    if |a| == 0 then a else ShuffleFrom(a, draws, |a| - 1, 0)
  }

  /** Every step only exchanges two elements, so the steps permute. */
  lemma {:induction false} ShuffleFromPermutes<T>(s: seq<T>, draws: seq<nat>, i: nat, k: nat)
    requires i < |s|
    ensures multiset(ShuffleFrom(s, draws, i, k)) == multiset(s)
    decreases i
  {
    if i > 0 {
      var t := Swap(s, i, Partner(draws, k, i));
      SwapMultiset(s, i, Partner(draws, k, i));
      ShuffleFromPermutes(t, draws, i - 1, k + 1);
    }
  }

  /** The shuffle returns a permutation of its input. */
  lemma ShufflePermutes<T>(a: seq<T>, draws: seq<nat>)
    ensures multiset(Shuffle(a, draws)) == multiset(a)
  {
    if |a| > 0 {
      ShuffleFromPermutes(a, draws, |a| - 1, 0);
    }
  }

  /** The loop of the source, step by step, computing the same permutation. */
  method ShuffleLoop<T>(a: seq<T>, draws: seq<nat>) returns (r: seq<T>)
    ensures r == Shuffle(a, draws)
    ensures multiset(r) == multiset(a)
  {
    r := a;
    if |a| > 0 {
      var i := |a| - 1;
      var k := 0;
      while i > 0
        invariant 0 <= i < |r| == |a|
        invariant ShuffleFrom(r, draws, i, k) == Shuffle(a, draws)
        decreases i
      {
        r := Swap(r, i, Partner(draws, k, i));
        i := i - 1;
        k := k + 1;
      }
    }
    ShufflePermutes(a, draws);
  }

  /** The steps from position `i` down never touch the positions after `i`. */
  lemma {:induction false} ShuffleFromKeepsTail<T>(s: seq<T>, draws: seq<nat>, i: nat, k: nat, m: nat)
    requires i < m < |s|
    ensures ShuffleFrom(s, draws, i, k)[m] == s[m]
    decreases i
  {
    if i > 0 {
      var t := Swap(s, i, Partner(draws, k, i));
      ShuffleFromKeepsTail(t, draws, i - 1, k + 1, m);
    }
  }

  /** Any element can end up last: the first draw picks it. */
  lemma LastPickReachable<T>(a: seq<T>, draws: seq<nat>, m: nat)
    requires m < |a| && |draws| > 0 && draws[0] == m
    ensures Shuffle(a, draws)[|a| - 1] == a[m]
  {
    var n := |a|;
    if n > 1 {
      var t := Swap(a, n - 1, m);
      assert Partner(draws, 0, n - 1) == m;
      ShuffleFromKeepsTail(t, draws, n - 2, 1, n - 1);
    }
  }
}
