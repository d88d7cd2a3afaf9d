/** Sequence helpers shared by the Python generator and the TypeScript
    utilities, and the reading of a random draw as an index. */
module Sequences {

  /** The choice a draw makes among `bound` options: a number in range
      selects that option, anything else the first one. */
  function Reduce(x: nat, bound: nat): (r: nat)
    requires bound > 0
    ensures r < bound
    ensures x < bound ==> r == x
  {
    if x < bound then x else 0
  }

  /** The `k`-th draw of a sequence of draws; a missing draw reads as zero. */
  function DrawAt(draws: seq<nat>, k: nat): nat {
    if k < |draws| then draws[k] else 0
  }

  /** `[y for y in s if y != x]`. */
  function Without<T(==)>(s: seq<T>, x: T): (r: seq<T>)
    ensures |r| <= |s|
  {
    if |s| == 0 then []
    else Without(s[..|s| - 1], x) + (if s[|s| - 1] == x then [] else [s[|s| - 1]])
  }

  /** What `Without` keeps: exactly the elements other than `x`. */
  lemma {:induction false} WithoutMembers<T>(s: seq<T>, x: T, y: T)
    ensures y in Without(s, x) <==> y in s && y != x
  {
    if |s| > 0 {
      WithoutMembers(s[..|s| - 1], x, y);
      assert s == s[..|s| - 1] + [s[|s| - 1]];
    }
  }

  /** Removing an element that occurs shortens the sequence. */
  lemma {:induction false} WithoutShorter<T>(s: seq<T>, x: T)
    requires x in s
    ensures |Without(s, x)| < |s|
  {
    if s[|s| - 1] != x {
      assert x in s[..|s| - 1] by {
        var k :| 0 <= k < |s| && s[k] == x;
        assert s[..|s| - 1][k] == x;
      }
      WithoutShorter(s[..|s| - 1], x);
    }
  }

  /** `s` with the elements at `i` and `j` exchanged. */
  function Swap<T>(s: seq<T>, i: nat, j: nat): (r: seq<T>)
    requires i < |s| && j < |s|
    ensures |r| == |s| && r[i] == s[j] && r[j] == s[i]
    ensures forall m :: 0 <= m < |s| && m != i && m != j ==> r[m] == s[m]
  {
    s[i := s[j]][j := s[i]]
  }

  lemma SwapSymmetric<T>(s: seq<T>, i: nat, j: nat)
    requires i < |s| && j < |s|
    ensures Swap(s, i, j) == Swap(s, j, i)
  {
  }

  /** Exchanging two elements keeps the multiset of elements. */
  lemma SwapMultiset<T>(s: seq<T>, i: nat, j: nat)
    requires i < |s| && j < |s|
    ensures multiset(Swap(s, i, j)) == multiset(s)
  {
    if i == j {
      assert Swap(s, i, j) == s;
    } else {
      var t := s[i := s[j]];
      assert t[j] == s[j];
      assert multiset(t) == multiset(s) - multiset{s[i]} + multiset{s[j]};
      assert multiset(t[j := s[i]]) == multiset(t) - multiset{s[j]} + multiset{s[i]};
      TakeOutPutBack(multiset(s), s[i], s[j]);
    }
  }

  /** Taking `a` out and putting `b` in, then taking `b` out and putting `a`
      back in, leaves a multiset that holds `a` unchanged. */
  lemma TakeOutPutBack<T>(m: multiset<T>, a: T, b: T)
    requires a in m
    ensures m - multiset{a} + multiset{b} - multiset{b} + multiset{a} == m
  {
    var m1 := m - multiset{a} + multiset{b};
    assert m1 - multiset{b} == m - multiset{a};
  }

  /** A sequence with no element repeated. */
  predicate Distinct<T(==)>(s: seq<T>) {
    forall i, j :: 0 <= i < j < |s| ==> s[i] != s[j]
  }

  /** `[...new Set(s)]` continued from `acc`: the elements of `s` not yet
      seen, each at its first occurrence. */
  function DedupOnto<T(==)>(s: seq<T>, acc: seq<T>): seq<T>
    decreases |s|
  {
    if |s| == 0 then acc
    else if s[0] in acc then DedupOnto(s[1..], acc)
    else DedupOnto(s[1..], acc + [s[0]])
  }

  function Dedup<T(==)>(s: seq<T>): seq<T> {
    DedupOnto(s, [])
  }

  /** Deduplication keeps exactly the elements there were, once each. */
  lemma {:induction false} DedupOntoMeaning<T>(s: seq<T>, acc: seq<T>)
    requires Distinct(acc)
    ensures Distinct(DedupOnto(s, acc))
    ensures forall x :: x in DedupOnto(s, acc) <==> x in acc || x in s
    decreases |s|
  {
    if |s| > 0 {
      var next := if s[0] in acc then acc else acc + [s[0]];
      assert Distinct(next);
      DedupOntoMeaning(s[1..], next);
      assert forall x :: x in s <==> x == s[0] || x in s[1..] by {
        assert s == [s[0]] + s[1..];
      }
    }
  }

  lemma DedupMeaning<T>(s: seq<T>)
    ensures Distinct(Dedup(s))
    ensures forall x :: x in Dedup(s) <==> x in s
  {
    DedupOntoMeaning(s, []);
  }
}
