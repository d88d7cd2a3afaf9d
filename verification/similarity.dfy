/** `findMostSimilarPrompt` of scripts/fixImagePairs.mjs: how many words two
    prompts share, relative to the longer one, and the most similar other
    prompt of a list. */
module Similarity {
  import opened Wrappers
  import opened Strings
  import opened Prompts
  import Alphabet

  /** `toLowerCase` on one character, on the blocks `Alphabet.Lower`
      covers. */
  function LowerChar(c: char): (r: char)
    ensures IsSpace(r) <==> IsSpace(c)
    ensures r == ' ' <==> c == ' '
  {
    Alphabet.Lower(c)
  }

  function Lower(s: string): (r: string)
    ensures |r| == |s|
  {
    seq(|s|, i requires 0 <= i < |s| => LowerChar(s[i]))
  }

  /** `s.toLowerCase().split(/\s+/)`: every run of white space separates two
      words, so a leading or trailing run gives an empty word. */
  function Words(s: string): seq<string> {
    Split(CollapseFrom(Lower(s), 0), ' ')
  }

  /** Lower-casing keeps a prompt normal. */
  lemma LowerNormal(s: string)
    requires Normal(s)
    ensures Normal(Lower(s))
  {
    var l := Lower(s);
    assert forall k :: 0 <= k < |s| ==> l[k] == LowerChar(s[k]);
  }

  /** On a normalised prompt the words are the pieces between single spaces. */
  lemma WordsOfNormal(s: string)
    requires Normal(s)
    ensures Words(s) == Split(Lower(s), ' ')
  {
    LowerNormal(s);
    CollapseNormal(Lower(s), 0);
    assert Lower(s)[0..] == Lower(s);
  }

  /** `words1.filter(word => words2.includes(word)).length`. */
  function CommonCount(w1: seq<string>, w2: seq<string>): (n: nat)
    ensures n <= |w1|
  {
    if |w1| == 0 then 0
    else (if w1[0] in w2 then 1 else 0) + CommonCount(w1[1..], w2)
  }

  /** Every word is common exactly when all of them occur in the other list,
      and none is exactly when none does. */
  lemma {:induction false} CommonCountBounds(w1: seq<string>, w2: seq<string>)
    ensures CommonCount(w1, w2) == |w1| <==> forall i :: 0 <= i < |w1| ==> w1[i] in w2
    ensures CommonCount(w1, w2) == 0 <==> forall i :: 0 <= i < |w1| ==> w1[i] !in w2
    decreases |w1|
  {
    if |w1| > 0 {
      CommonCountBounds(w1[1..], w2);
      assert forall i :: 1 <= i < |w1| ==> w1[i] == w1[1..][i - 1];
    }
  }

  function Longer(a: nat, b: nat): (r: nat)
    ensures r >= a && r >= b && (r == a || r == b)
  {
    if a >= b then a else b
  }

  /** `commonWords.length / Math.max(words1.length, words2.length)`, as an
      exact fraction. */
  function Score(t: string, p: string): (r: real)
    ensures 0.0 <= r <= 1.0
  {
    var w1, w2 := Words(t), Words(p);
    var n, d := CommonCount(w1, w2), Longer(|w1|, |w2|);
    assert 0 <= n <= d && d >= 1;
    FractionInUnit(n, d);
    n as real / d as real
  }

  lemma FractionInUnit(n: nat, d: nat)
    requires n <= d && d >= 1
    ensures 0.0 <= n as real / d as real <= 1.0
  {
  }

  /** A prompt scores above one half exactly when more than half of the
      longer word list is common. */
  lemma ScoreAboveHalf(t: string, p: string)
    ensures Score(t, p) > 0.5 <==>
      2 * CommonCount(Words(t), Words(p)) > Longer(|Words(t)|, |Words(p)|)
  {
    var n, d := CommonCount(Words(t), Words(p)), Longer(|Words(t)|, |Words(p)|);
    HalfFraction(n, d);
  }

  lemma HalfFraction(n: nat, d: nat)
    requires d >= 1
    ensures n as real / d as real > 0.5 <==> 2 * n > d
  {
    var q, e := n as real / d as real, d as real;
    assert q * e == n as real;
    if q > 0.5 {
      ScaleStrict(0.5, q, e);
    } else {
      ScaleWeak(q, 0.5, e);
    }
  }

  lemma ScaleStrict(a: real, b: real, c: real)
    requires a < b && c > 0.0
    ensures a * c < b * c
  {
    assert b * c - a * c == (b - a) * c;
  }

  lemma ScaleWeak(a: real, b: real, c: real)
    requires a <= b && c > 0.0
    ensures a * c <= b * c
  {
    assert b * c - a * c == (b - a) * c;
  }

  /** A prompt scores zero exactly when it shares no word. */
  lemma ScoreZero(t: string, p: string)
    ensures Score(t, p) == 0.0 <==> CommonCount(Words(t), Words(p)) == 0
  {
    var n, d := CommonCount(Words(t), Words(p)), Longer(|Words(t)|, |Words(p)|);
    ZeroFraction(n, d);
  }

  lemma ZeroFraction(n: nat, d: nat)
    requires d >= 1
    ensures n as real / d as real == 0.0 <==> n == 0
  {
    var q := n as real / d as real;
    assert q * d as real == n as real;
  }

  /** The best prompt so far (`bestMatch`, `null` as `None`) and its score
      (`highestSimilarity`). */
  datatype Best = Best(prompt: Option<string>, score: real)

  /** The loop of `findMostSimilarPrompt` from position `i` on: a prompt
      equal to the target is skipped, and a prompt replaces the best one
      only with a strictly higher score. */
  function MostSimilarFrom(target: string, prompts: seq<string>, i: nat, best: Best): Best
    requires i <= |prompts|
    decreases |prompts| - i
  {
    if i == |prompts| then best
    else if prompts[i] == target then MostSimilarFrom(target, prompts, i + 1, best)
    else
      var s := Score(target, prompts[i]);
      if s > best.score then MostSimilarFrom(target, prompts, i + 1, Best(Some(prompts[i]), s))
      else MostSimilarFrom(target, prompts, i + 1, best)
  }

  function MostSimilar(target: string, prompts: seq<string>): Best {
    MostSimilarFrom(target, prompts, 0, Best(None, 0.0))
  }

  /** The prompt at `j` is another prompt than the target, scores `s`, and
      every other prompt from `i` up to `j` scores less. */
  ghost predicate FirstWith(target: string, prompts: seq<string>, i: nat, j: nat, s: real)
    requires i <= j < |prompts|
  {
    && prompts[j] != target && Score(target, prompts[j]) == s
    && forall k :: i <= k < j && prompts[k] != target ==> Score(target, prompts[k]) < s
  }

  /** From position `i`, the result scores at least as high as the best so
      far and as every other prompt, and it is either the best so far or the
      first prompt to reach its score, which beats the best so far. */
  lemma {:induction false} MostSimilarFromMeaning(target: string, prompts: seq<string>, i: nat, best: Best)
    requires i <= |prompts|
    ensures var r := MostSimilarFrom(target, prompts, i, best);
      && best.score <= r.score
      && (forall k :: i <= k < |prompts| && prompts[k] != target ==> Score(target, prompts[k]) <= r.score)
      && (r == best || exists j :: (i <= j < |prompts| && r == Best(Some(prompts[j]), r.score) &&
                                   r.score > best.score && FirstWith(target, prompts, i, j, r.score)))
    decreases |prompts| - i
  {
    if i < |prompts| {
      var r := MostSimilarFrom(target, prompts, i, best);
      if prompts[i] == target {
        MostSimilarFromMeaning(target, prompts, i + 1, best);
        SkipKeepsFirst(target, prompts, i, best, r);
      } else {
        var s := Score(target, prompts[i]);
        if s > best.score {
          var b := Best(Some(prompts[i]), s);
          MostSimilarFromMeaning(target, prompts, i + 1, b);
          NewBestFirst(target, prompts, i, best, b, r);
        } else {
          MostSimilarFromMeaning(target, prompts, i + 1, best);
          SkipKeepsFirst(target, prompts, i, best, r);
        }
      }
    }
  }

  /** The step that keeps the best prompt: a winner found later is still the
      first to reach its score. */
  lemma SkipKeepsFirst(target: string, prompts: seq<string>, i: nat, best: Best, r: Best)
    requires i < |prompts| && (prompts[i] == target || Score(target, prompts[i]) <= best.score)
    requires best.score <= r.score
    requires r == best || exists j :: (i + 1 <= j < |prompts| && r == Best(Some(prompts[j]), r.score) &&
                                      r.score > best.score && FirstWith(target, prompts, i + 1, j, r.score))
    ensures r == best || exists j :: (i <= j < |prompts| && r == Best(Some(prompts[j]), r.score) &&
                                     r.score > best.score && FirstWith(target, prompts, i, j, r.score))
  {
    if r != best {
      var j :| i + 1 <= j < |prompts| && r == Best(Some(prompts[j]), r.score) &&
               r.score > best.score && FirstWith(target, prompts, i + 1, j, r.score);
      assert FirstWith(target, prompts, i, j, r.score);
    }
  }

  /** The step that takes a new best prompt `b`: either it wins, or a later
      winner beats it and so every prompt before. */
  lemma NewBestFirst(target: string, prompts: seq<string>, i: nat, best: Best, b: Best, r: Best)
    requires i < |prompts| && prompts[i] != target
    requires b == Best(Some(prompts[i]), Score(target, prompts[i])) && b.score > best.score
    requires b.score <= r.score
    requires r == b || exists j :: (i + 1 <= j < |prompts| && r == Best(Some(prompts[j]), r.score) &&
                                   r.score > b.score && FirstWith(target, prompts, i + 1, j, r.score))
    ensures exists j :: (i <= j < |prompts| && r == Best(Some(prompts[j]), r.score) &&
                         r.score > best.score && FirstWith(target, prompts, i, j, r.score))
  {
    if r == b {
      assert FirstWith(target, prompts, i, i, r.score);
    } else {
      var j :| i + 1 <= j < |prompts| && r == Best(Some(prompts[j]), r.score) &&
               r.score > b.score && FirstWith(target, prompts, i + 1, j, r.score);
      assert FirstWith(target, prompts, i, j, r.score);
    }
  }

  /** `findMostSimilarPrompt(target, prompts)`: no prompt when every other
      prompt scores zero; otherwise the first other prompt with the highest
      score, which is above zero. */
  lemma MostSimilarMeaning(target: string, prompts: seq<string>)
    ensures var r := MostSimilar(target, prompts);
      && (r.prompt.None? <==> forall k :: 0 <= k < |prompts| && prompts[k] != target ==> Score(target, prompts[k]) == 0.0)
      && (r.prompt.None? ==> r.score == 0.0)
      && (r.prompt.Some? ==> r.score > 0.0 && exists j :: (0 <= j < |prompts| && prompts[j] == r.prompt.value &&
            FirstWith(target, prompts, 0, j, r.score)))
      && (forall k :: 0 <= k < |prompts| && prompts[k] != target ==> Score(target, prompts[k]) <= r.score)
  {
    MostSimilarFromMeaning(target, prompts, 0, Best(None, 0.0));
  }

  /** The result is the best prompt so far or another prompt of the list. */
  lemma {:induction false} MostSimilarFromIn(target: string, prompts: seq<string>, i: nat, best: Best)
    requires i <= |prompts|
    ensures var r := MostSimilarFrom(target, prompts, i, best);
      r.prompt == best.prompt || (r.prompt.Some? && r.prompt.value in prompts[i..] && r.prompt.value != target)
    decreases |prompts| - i
  {
    if i < |prompts| {
      var s := Score(target, prompts[i]);
      var next := if prompts[i] != target && s > best.score then Best(Some(prompts[i]), s) else best;
      MostSimilarFromIn(target, prompts, i + 1, next);
      assert prompts[i..] == [prompts[i]] + prompts[i + 1..];
    }
  }
}
