/** `generate_non_word` of non_word_generator.py: a vowel-only swap of the
    base word, else of up to five words drawn from the external pool, else a
    failure sentinel. */
module Generator {
  import opened Wrappers
  import opened Alphabet
  import opened Mutation
  import opened Sequences

  /** How many external words the fallback tries. */
  const FallbackAttempts: nat := 5

  /** Appended to the base word when every vowel swap failed. */
  const FailureSuffix: string := "_vowel_swap_failed"

  /** `real_words_set`: both word lists, lower-cased. */
  function RealWords(aesthetic: seq<string>, external: seq<string>): set<string>
  {
    (set x | x in aesthetic :: LowerStr(x)) + (set x | x in external :: LowerStr(x))
  }

  /** The real words are exactly the lower-cased words of the two lists. */
  lemma RealWordsMembers(aesthetic: seq<string>, external: seq<string>, w: string)
    ensures w in RealWords(aesthetic, external) <==>
      exists x :: (x in aesthetic || x in external) && LowerStr(x) == w
  {
  }

  /** `r` is an acceptable vowel swap of `w`: two interior vowels of `w`
      exchanged, and the outcome passes the acceptance gate. */
  ghost predicate VowelSwapOf(w: string, r: string, realWords: set<string>) {
    (exists i, j :: SwappedAt(w, r, i, j, false, true)) && Accepted(w, r, realWords)
  }

  /** The random choices of one fallback round: the index drawn from the
      external pool and the swap draws for the drawn word. */
  datatype FallbackDraw = FallbackDraw(pick: nat, swaps: seq<SwapDraw>)

  function FallbackDrawAt(draws: seq<FallbackDraw>, k: nat): FallbackDraw {
    if k < |draws| then draws[k] else FallbackDraw(0, [])
  }

  /** All random choices of one call: the swap draws for the base word and
      the fallback rounds. */
  datatype GenerateDraws = GenerateDraws(base: seq<SwapDraw>, fallback: seq<FallbackDraw>)

  /** One fallback round: the drawn word, unless it equals the base word up
      to case, given to the vowel swap. */
  function FallbackRound(baseWord: string, external: seq<string>, realWords: set<string>,
                         d: FallbackDraw): (r: Option<string>)
    requires |external| > 0
    ensures r.Some? ==> exists e :: (e in external && LowerStr(e) != LowerStr(baseWord) &&
        VowelSwapOf(e, r.value, realWords))
  {
    var e := external[Reduce(d.pick, |external|)];
    if LowerStr(e) == LowerStr(baseWord) then None
    else SwapLetters(e, realWords, false, true, d.swaps)
  }

  /** Rounds `k`, `k + 1`, ... of the external fallback. */
  function FallbackFrom(baseWord: string, external: seq<string>, realWords: set<string>,
                        draws: seq<FallbackDraw>, k: nat): (r: Option<string>)
    requires |external| > 0
    ensures r.Some? ==> exists e :: (e in external && LowerStr(e) != LowerStr(baseWord) &&
        VowelSwapOf(e, r.value, realWords))
    decreases FallbackAttempts - k
  {
    if k >= FallbackAttempts then None
    else
      match FallbackRound(baseWord, external, realWords, FallbackDrawAt(draws, k))
      case Some(r) => Some(r)
      case None => FallbackFrom(baseWord, external, realWords, draws, k + 1)
  }

  /** `generate_non_word(base_word, external_adverbs, aesthetic_words)`. A
      swap result is never empty (it is as long as a word of five or more
      letters), so the source's truth test on it is the test for `Some`. */
  function GenerateNonWord(baseWord: string, external: seq<string>, aesthetic: seq<string>,
                           draws: GenerateDraws): (r: string)
    ensures || r == baseWord + FailureSuffix
            || VowelSwapOf(baseWord, r, RealWords(aesthetic, external))
            || (exists e :: e in external && LowerStr(e) != LowerStr(baseWord) &&
                  VowelSwapOf(e, r, RealWords(aesthetic, external)))
  {
    var realWords := RealWords(aesthetic, external);
    match SwapLetters(baseWord, realWords, false, true, draws.base)
    case Some(r) => r
    case None =>
      if |external| == 0 then baseWord + FailureSuffix
      else
        match FallbackFrom(baseWord, external, realWords, draws.fallback, 0)
        case Some(r) => r
        case None => baseWord + FailureSuffix
  }

  /** Whatever the outcome, a returned non-word is no word of either list,
      up to case, unless it is the failure sentinel. */
  lemma ResultIsNotRealWord(baseWord: string, external: seq<string>, aesthetic: seq<string>,
                            draws: GenerateDraws, x: string)
    requires x in aesthetic || x in external
    ensures var r := GenerateNonWord(baseWord, external, aesthetic, draws);
      r != baseWord + FailureSuffix ==> LowerStr(r) != LowerStr(x)
  {
    RealWordsMembers(aesthetic, external, LowerStr(x));
  }

  /** Only the first five fallback rounds matter: draws past them are never
      consulted. */
  lemma {:induction false} FallbackBounded(baseWord: string, external: seq<string>, realWords: set<string>,
                                          draws: seq<FallbackDraw>, extra: seq<FallbackDraw>, k: nat)
    requires |external| > 0 && |draws| >= FallbackAttempts
    ensures FallbackFrom(baseWord, external, realWords, draws + extra, k) ==
      FallbackFrom(baseWord, external, realWords, draws, k)
    decreases FallbackAttempts - k
  {
    if k < FallbackAttempts {
      assert FallbackDrawAt(draws + extra, k) == FallbackDrawAt(draws, k);
      FallbackStep(baseWord, external, realWords, draws + extra, k);
      FallbackStep(baseWord, external, realWords, draws, k);
      FallbackBounded(baseWord, external, realWords, draws, extra, k + 1);
    }
  }

  /** Unfolding one fallback round. */
  lemma FallbackStep(baseWord: string, external: seq<string>, realWords: set<string>,
                     draws: seq<FallbackDraw>, k: nat)
    requires |external| > 0 && k < FallbackAttempts
    ensures FallbackFrom(baseWord, external, realWords, draws, k) ==
      var r := FallbackRound(baseWord, external, realWords, FallbackDrawAt(draws, k));
      if r.Some? then r else FallbackFrom(baseWord, external, realWords, draws, k + 1)
  {
  }

  /** When no word involved has five letters, no swap is possible and the
      sentinel comes back. */
  lemma {:induction false} ShortWordsFail(baseWord: string, external: seq<string>, aesthetic: seq<string>,
                                          draws: GenerateDraws)
    requires |baseWord| < 5
    requires forall k :: 0 <= k < |external| ==> |external[k]| < 5
    ensures GenerateNonWord(baseWord, external, aesthetic, draws) == baseWord + FailureSuffix
  {
    if |external| > 0 {
      FallbackOfShortWords(baseWord, external, RealWords(aesthetic, external), draws.fallback, 0);
    }
  }

  lemma {:induction false} FallbackOfShortWords(baseWord: string, external: seq<string>, realWords: set<string>,
                                                draws: seq<FallbackDraw>, k: nat)
    requires |external| > 0
    requires forall i :: 0 <= i < |external| ==> |external[i]| < 5
    ensures FallbackFrom(baseWord, external, realWords, draws, k) == None
    decreases FallbackAttempts - k
  {
    if k < FallbackAttempts {
      FallbackOfShortWords(baseWord, external, realWords, draws, k + 1);
    }
  }

  /** Every acceptable vowel swap of the base word can be the outcome: the
      first swap attempt on the base word can draw it. */
  lemma BaseSwapReachable(baseWord: string, external: seq<string>, aesthetic: seq<string>,
                          r: string, i: nat, j: nat)
    requires |baseWord| >= 5
    requires SwappedAt(baseWord, r, i, j, false, true) && Accepted(baseWord, r, RealWords(aesthetic, external))
    ensures exists draws :: GenerateNonWord(baseWord, external, aesthetic, draws) == r
  {
    var realWords := RealWords(aesthetic, external);
    VowelSwapReachable(baseWord, realWords, r, i, j);
    var d :| SwapLetters(baseWord, realWords, false, true, [d]) == Some(r);
    var draws := GenerateDraws([d], []);
    BaseSwapWins(baseWord, external, aesthetic, draws);
    OutcomeWitness(baseWord, external, aesthetic, draws);
  }

  /** A successful swap of the base word is the outcome. */
  lemma BaseSwapWins(baseWord: string, external: seq<string>, aesthetic: seq<string>, draws: GenerateDraws)
    ensures var s := SwapLetters(baseWord, RealWords(aesthetic, external), false, true, draws.base);
      s.Some? ==> GenerateNonWord(baseWord, external, aesthetic, draws) == s.value
  {
  }

  lemma OutcomeWitness(baseWord: string, external: seq<string>, aesthetic: seq<string>, draws: GenerateDraws)
    ensures exists dr :: (GenerateNonWord(baseWord, external, aesthetic, dr) ==
                            GenerateNonWord(baseWord, external, aesthetic, draws))
  {
    var r := GenerateNonWord(baseWord, external, aesthetic, draws);
    assert GenerateNonWord(baseWord, external, aesthetic, draws) == r;
  }
}
