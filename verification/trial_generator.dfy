/** The trial builder of src/utils/trialGenerator.ts: the syllable-based
    non-word mutation `generateNonWord`, the per-image trial list
    `createTrialsForImage` and the session assembly `createSession`. */
module TrialGenerator {
  import opened Wrappers
  import opened Alphabet
  import opened Sequences
  import opened Strings
  import opened Types
  import opened Shuffling

  /** One factor word and its category. */
  datatype CommonWord = CommonWord(word: string, category: string)

  /** A category text: the factor key and the pole, joined by `_`. */
  function Category(factor: string, pole: string): string {
    factor + "_" + pole
  }

  /** `FACTOR_WORDS`: three words for each pole of five factors. */
  const FactorWords: seq<CommonWord> := [
    CommonWord("красота", Category("beauty", "positive")),
    CommonWord("прелесть", Category("beauty", "positive")),
    CommonWord("привлекательность", Category("beauty", "positive")),
    CommonWord("уродство", Category("beauty", "negative")),
    CommonWord("безобразие", Category("beauty", "negative")),
    CommonWord("отвращение", Category("beauty", "negative")),
    CommonWord("гармония", Category("harmony", "positive")),
    CommonWord("баланс", Category("harmony", "positive")),
    CommonWord("равновесие", Category("harmony", "positive")),
    CommonWord("беспорядок", Category("harmony", "negative")),
    CommonWord("нестабильность", Category("harmony", "negative")),
    CommonWord("хаос", Category("harmony", "negative")),
    CommonWord("динамика", Category("dynamics", "positive")),
    CommonWord("движение", Category("dynamics", "positive")),
    CommonWord("энергия", Category("dynamics", "positive")),
    CommonWord("статика", Category("dynamics", "negative")),
    CommonWord("инертность", Category("dynamics", "negative")),
    CommonWord("застой", Category("dynamics", "negative")),
    CommonWord("оригинальность", Category("originality", "positive")),
    CommonWord("новизна", Category("originality", "positive")),
    CommonWord("уникальность", Category("originality", "positive")),
    CommonWord("банальность", Category("originality", "negative")),
    CommonWord("шаблонность", Category("originality", "negative")),
    CommonWord("стереотипность", Category("originality", "negative")),
    CommonWord("точность", Category("accuracy", "high")),
    CommonWord("четкость", Category("accuracy", "high")),
    CommonWord("ясность", Category("accuracy", "high")),
    CommonWord("размытость", Category("accuracy", "low")),
    CommonWord("нечеткость", Category("accuracy", "low")),
    CommonWord("неясность", Category("accuracy", "low"))
  ]

  /** `factors.map(f => f.word)`. */
  function Words(factors: seq<CommonWord>): (r: seq<string>)
    ensures |r| == |factors|
    ensures forall i :: 0 <= i < |r| ==> r[i] == factors[i].word
  {
    seq(|factors|, i requires 0 <= i < |factors| => factors[i].word)
  }

  /** `words.filter(w => w.length >= 5)`. */
  function LongWords(words: seq<string>): (r: seq<string>)
    ensures forall i :: 0 <= i < |r| ==> |r[i]| >= 5
  {
    if |words| == 0 then []
    else (if |words[0]| >= 5 then [words[0]] else []) + LongWords(words[1..])
  }

  /** The filter keeps exactly the words of five or more letters. */
  lemma {:induction false} LongWordsMembers(words: seq<string>, w: string)
    ensures w in LongWords(words) <==> w in words && |w| >= 5
  {
    if |words| > 0 {
      LongWordsMembers(words[1..], w);
      assert words == [words[0]] + words[1..];
    }
  }

  /** A factor list the non-word generator can draw a replacement from: one
      of its words has five or more letters. The source indexes the
      filtered list at a random position and relies on it not being empty. */
  predicate HasLongWord(factors: seq<CommonWord>) {
    |LongWords(Words(factors))| > 0
  }

  /** The source's factor list: thirty words, and one of them (`красота`)
      has five or more letters. */
  lemma FactorWordsFacts()
    ensures |FactorWords| == 30
    ensures HasLongWord(FactorWords)
  {
    var words := Words(FactorWords);
    assert |words[0]| == 7;
    LongWordsMembers(words, words[0]);
  }

  // ---------------------------------------------------------------------
  // Syllables: the matches of /[бвгдзйклмнпрстфхцчшщ]*[аеёиоуыэюя]+/g

  /** The consonant class of the syllable pattern: every consonant but `ж`. */
  predicate IsSyllableConsonant(c: char) {
    IsConsonant(c) && c != 'ж'
  }

  /** The replacement vowels (`ё` and `ю` left out). */
  const ReplacementVowels: string := "аеиоуыэя"

  /** The replacement consonants (`ж` and `й` left out). */
  const ReplacementConsonants: string := "бвгдзклмнпрстфхцчшщ"

  /** The end of the run of pattern consonants starting at `p`. */
  function ConsonantRunEnd(w: string, p: nat): (q: nat)
    requires p <= |w|
    ensures p <= q <= |w|
    ensures forall m :: p <= m < q ==> IsSyllableConsonant(w[m])
    ensures q < |w| ==> !IsSyllableConsonant(w[q])
    decreases |w| - p
  {
    if p < |w| && IsSyllableConsonant(w[p]) then ConsonantRunEnd(w, p + 1) else p
  }

  /** The end of the run of vowels starting at `p`. */
  function VowelRunEnd(w: string, p: nat): (q: nat)
    requires p <= |w|
    ensures p <= q <= |w|
    ensures forall m :: p <= m < q ==> IsVowel(w[m])
    ensures q < |w| ==> !IsVowel(w[q])
    decreases |w| - p
  {
    if p < |w| && IsVowel(w[p]) then VowelRunEnd(w, p + 1) else p
  }

  /** The first `k` letters of `s` are pattern consonants. */
  ghost predicate ConsonantsBefore(s: string, k: nat) {
    forall m :: 0 <= m < k && m < |s| ==> IsSyllableConsonant(s[m])
  }

  /** The letters of `s` from `k` on are vowels. */
  ghost predicate VowelsFrom(s: string, k: nat) {
    forall m :: k <= m < |s| ==> IsVowel(s[m])
  }

  /** `s` matches the syllable pattern: pattern consonants, then at least one
      vowel. */
  ghost predicate IsSyllable(s: string) {
    exists k: nat :: k < |s| && ConsonantsBefore(s, k) && VowelsFrom(s, k)
  }

  /** The end of the match of the pattern starting at `p`, if there is one:
      the greedy consonant run must be followed by a vowel, and the match
      takes the whole vowel run. */
  function MatchAt(w: string, p: nat): (e: Option<nat>)
    requires p <= |w|
    ensures e.Some? ==> p < e.value <= |w| && IsSyllable(w[p..e.value])
  {
    var q := ConsonantRunEnd(w, p);
    if q < |w| && IsVowel(w[q]) then
      var e := VowelRunEnd(w, q);
      SyllableWitness(w, p, q, e);
      Some(e)
    else None
  }

  lemma SyllableWitness(w: string, p: nat, q: nat, e: nat)
    requires p <= q < e <= |w|
    requires forall m :: p <= m < q ==> IsSyllableConsonant(w[m])
    requires forall m :: q <= m < e ==> IsVowel(w[m])
    ensures IsSyllable(w[p..e])
  {
    var s := w[p..e];
    assert forall m :: 0 <= m < |s| ==> s[m] == w[p + m];
    assert ConsonantsBefore(s, q - p) && VowelsFrom(s, q - p);
  }

  /** A match of the pattern starts at `p` exactly when some piece of the
      word from `p` on is a syllable, and the match found is the longest
      such piece, as a greedy pattern gives it. */
  lemma MatchAtMeaning(w: string, p: nat)
    requires p <= |w|
    ensures MatchAt(w, p).None? <==> forall e :: p < e <= |w| ==> !IsSyllable(w[p..e])
    ensures MatchAt(w, p).Some? ==> forall e :: MatchAt(w, p).value < e <= |w| ==> !IsSyllable(w[p..e])
  {
    forall e | p < e <= |w| && IsSyllable(w[p..e])
      ensures MatchAt(w, p).Some? && e <= MatchAt(w, p).value
    {
      SyllableAt(w, p, e);
    }
  }

  /** A syllable starting at `p` begins with the greedy consonant run, is
      followed by a vowel, and ends within the vowel run after it. */
  lemma SyllableAt(w: string, p: nat, e: nat)
    requires p < e <= |w| && IsSyllable(w[p..e])
    ensures var q := ConsonantRunEnd(w, p);
      q < |w| && IsVowel(w[q]) && e <= VowelRunEnd(w, q)
  {
    var s := w[p..e];
    var k: nat :| k < |s| && ConsonantsBefore(s, k) && VowelsFrom(s, k);
    var q := ConsonantRunEnd(w, p);
    assert forall m :: p <= m < p + k ==> IsSyllableConsonant(w[m]) by {
      forall m | p <= m < p + k ensures IsSyllableConsonant(w[m]) {
        assert w[m] == s[m - p];
      }
    }
    assert IsVowel(w[p + k]) by {
      assert w[p + k] == s[k];
    }
    ClassesDisjoint(w[p + k]);
    assert q == p + k;
    assert forall m :: q <= m < e ==> IsVowel(w[m]) by {
      forall m | q <= m < e ensures IsVowel(w[m]) {
        assert w[m] == s[m - p];
      }
    }
  }

  /** The matches of a global regular-expression match from position `p`
      on: each match is tried at the leftmost position, and a position
      where none starts is skipped. */
  function SyllablesFrom(w: string, p: nat): (r: seq<string>)
    requires p <= |w|
    ensures forall i :: 0 <= i < |r| ==> IsSyllable(r[i])
    ensures |Concat(r)| <= |w| - p
    decreases |w| - p
  {
    if p >= |w| then []
    else
      match MatchAt(w, p)
      case Some(e) =>
        var rest := SyllablesFrom(w, e);
        ConcatCons(w[p..e], rest);
        [w[p..e]] + rest
      case None => SyllablesFrom(w, p + 1)
  }

  /** `parts.join('')`. */
  function Concat(parts: seq<string>): string {
    if |parts| == 0 then "" else parts[0] + Concat(parts[1..])
  }

  lemma ConcatCons(s: string, rest: seq<string>)
    ensures Concat([s] + rest) == s + Concat(rest)
  {
    assert ([s] + rest)[1..] == rest;
  }

  /** `word.match(...) || [word]`: the syllables, or the word itself when
      nothing matches. */
  function Syllables(w: string): (r: seq<string>)
    ensures |r| >= 1
    ensures |SyllablesFrom(w, 0)| == 0 ==> r == [w]
    ensures |SyllablesFrom(w, 0)| > 0 ==> forall i :: 0 <= i < |r| ==> IsSyllable(r[i])
  {
    var s := SyllablesFrom(w, 0);
    if |s| == 0 then [w] else s
  }

  /** `красота` splits into `кра`, `со`, `та`. */
  lemma SyllablesExample()
    ensures Syllables("красота") == ["кра", "со", "та"]
  {
    var w := "красота";
    KrasotaMatches();
    assert SyllablesFrom(w, 5) == [w[5..7]];
    assert SyllablesFrom(w, 3) == [w[3..5]] + [w[5..7]];
    assert SyllablesFrom(w, 0) == [w[0..3]] + [w[3..5]] + [w[5..7]];
    assert w[0..3] == "кра" && w[3..5] == "со" && w[5..7] == "та";
  }

  lemma KrasotaMatches()
    ensures MatchAt("красота", 0) == Some(3)
    ensures MatchAt("красота", 3) == Some(5)
    ensures MatchAt("красота", 5) == Some(7)
  {
    var w := "красота";
    assert ConsonantRunEnd(w, 2) == 2;
    assert ConsonantRunEnd(w, 0) == 2;
    assert VowelRunEnd(w, 2) == 3;
    assert ConsonantRunEnd(w, 3) == 4;
    assert VowelRunEnd(w, 4) == 5;
    assert ConsonantRunEnd(w, 5) == 6;
    assert VowelRunEnd(w, 6) == 7;
  }

  /** Letters outside every match are lost: in `кот` the final `т` starts no
      syllable, so the syllables join to `ко`. */
  lemma TrailingConsonantDropped()
    ensures Concat(Syllables("кот")) == "ко"
  {
    var w := "кот";
    assert MatchAt(w, 0) == Some(2);
    assert MatchAt(w, 2) == None;
    assert SyllablesFrom(w, 2) == [];
  }

  // ---------------------------------------------------------------------
  // generateNonWord

  /** The random choices of one call: the long factor word that replaces a
      short input, the syllable, the vowel-or-consonant coin
      (`Math.random() < 0.5` replaces a vowel) and the new letter. */
  datatype NonWordDraw = NonWordDraw(longWord: nat, syllable: nat, replaceVowel: bool, letter: nat)

  function NonWordDrawAt(draws: seq<NonWordDraw>, k: nat): NonWordDraw {
    if k < |draws| then draws[k] else NonWordDraw(0, 0, false, 0)
  }

  /** The letter class the vowel-or-consonant coin selects. */
  predicate InClass(c: char, vowel: bool) {
    if vowel then IsVowel(c) else IsSyllableConsonant(c)
  }

  /** The position of the first letter of the class at or after `i`. */
  function FirstOfClass(s: string, vowel: bool, i: nat): (k: Option<nat>)
    requires i <= |s|
    ensures k.Some? ==> i <= k.value < |s| && InClass(s[k.value], vowel)
    ensures k.Some? ==> forall m :: i <= m < k.value ==> !InClass(s[m], vowel)
    ensures k.None? ==> forall m :: i <= m < |s| ==> !InClass(s[m], vowel)
    decreases |s| - i
  {
    if i == |s| then None
    else if InClass(s[i], vowel) then Some(i)
    else FirstOfClass(s, vowel, i + 1)
  }

  /** `s.replace(c, x)` with a one-character pattern: the first occurrence
      of `c` becomes `x`. */
  function ReplaceFirst(s: string, c: char, x: char): (r: string)
    ensures |r| == |s|
  {
    if c in s then s[IndexOf(s, c) := x] else s
  }

  /** Replacing the first letter of a class by its own character rewrites
      exactly that letter, since no earlier letter is the same character. */
  lemma ReplaceFirstOfClass(s: string, vowel: bool, x: char)
    requires FirstOfClass(s, vowel, 0).Some?
    ensures var k := FirstOfClass(s, vowel, 0).value;
      ReplaceFirst(s, s[k], x) == s[k := x]
  {
    var k := FirstOfClass(s, vowel, 0).value;
    assert s[k] in s;
    if IndexOf(s, s[k]) < k {
      assert false;
    }
  }

  /** The modified syllable: its first vowel, or its first pattern
      consonant, becomes the drawn replacement letter. */
  function ModifySyllable(syllable: string, d: NonWordDraw): (r: string)
    ensures |r| == |syllable|
  {
    var letters := if d.replaceVowel then ReplacementVowels else ReplacementConsonants;
    match FirstOfClass(syllable, d.replaceVowel, 0)
    case None => syllable
    case Some(k) => ReplaceFirst(syllable, syllable[k], letters[Reduce(d.letter, |letters|)])
  }

  /** A modified syllable differs from the syllable only at its first vowel
      (or first pattern consonant). */
  lemma ModifySyllableChangesFirst(syllable: string, d: NonWordDraw, m: nat)
    requires m < |syllable|
    requires FirstOfClass(syllable, d.replaceVowel, 0).Some? ==>
      m != FirstOfClass(syllable, d.replaceVowel, 0).value
    ensures ModifySyllable(syllable, d)[m] == syllable[m]
  {
    var letters := if d.replaceVowel then ReplacementVowels else ReplacementConsonants;
    if FirstOfClass(syllable, d.replaceVowel, 0).Some? {
      ReplaceFirstOfClass(syllable, d.replaceVowel, letters[Reduce(d.letter, |letters|)]);
    }
  }

  /** The one-syllable branch: the middle letter becomes a replacement
      vowel when it is a vowel (tested after lower-casing) and a replacement
      consonant otherwise; nothing else changes. */
  function MutateMiddle(w: string, d: NonWordDraw): (r: string)
    requires |w| > 0
    ensures |r| == |w|
    ensures forall i :: 0 <= i < |w| && i != |w| / 2 ==> r[i] == w[i]
  {
    var mid := |w| / 2;
    var letters := if IsVowel(Lower(w[mid])) then ReplacementVowels else ReplacementConsonants;
    w[..mid] + [letters[Reduce(d.letter, |letters|)]] + w[mid + 1..]
  }

  /** The syllable a multi-syllable word modifies: never the first or the
      last. */
  function ChooseSyllable(count: nat, draw: nat): (idx: nat)
    requires count >= 3
    ensures 0 < idx < count - 1
    ensures draw < count - 2 ==> idx == draw + 1
  {
    Reduce(draw, count - 2) + 1
  }

  /** A pool of words to replace short inputs from: not empty, and every
      word has five or more letters. */
  predicate LongPool(longWords: seq<string>) {
    |longWords| > 0 && forall i :: 0 <= i < |longWords| ==> |longWords[i]| >= 5
  }

  /** The word an attempt mutates: a short input is replaced by a drawn
      word of the long pool. */
  function AttemptWord(longWords: seq<string>, word: string, d: NonWordDraw): (w: string)
    requires LongPool(longWords)
    ensures |w| >= 5
    ensures |word| >= 5 ==> w == word
    ensures |word| < 5 ==> w in longWords
  {
    if |word| < 5 then longWords[Reduce(d.longWord, |longWords|)] else word
  }

  /** One attempt's mutation of a word of five or more letters: the middle
      letter for a word of at most two syllables, otherwise one modified
      inner syllable, with the letters outside every syllable dropped. */
  function MutateOnce(w: string, d: NonWordDraw): (r: string)
    requires |w| >= 5
  {
    var syllables := Syllables(w);
    if |syllables| <= 2 then MutateMiddle(w, d)
    else
      var idx := ChooseSyllable(|syllables|, d.syllable);
      Concat(syllables[idx := ModifySyllable(syllables[idx], d)])
  }

  /** `generateNonWord(word, attempts)`, with the long-word pool as a
      parameter (the source always filters it from the factor words). Past ten
      attempts the word gets the ending `ость`; before that, every result has
      at least five letters. */
  function GenerateNonWord(longWords: seq<string>, word: string, attempts: nat,
                           draws: seq<NonWordDraw>): (r: string)
    requires LongPool(longWords)
    ensures attempts > 10 ==> r == word + "ость"
    ensures attempts <= 10 ==> |r| >= 5
    decreases 11 - attempts
  {
    if attempts > 10 then word + "ость"
    else
      var w := AttemptWord(longWords, word, NonWordDrawAt(draws, attempts));
      var result := MutateOnce(w, NonWordDrawAt(draws, attempts));
      if |result| < 5 then GenerateNonWord(longWords, w, attempts + 1, draws) else result
  }

  /** Unfolding one attempt. */
  lemma GenerateNonWordStep(longWords: seq<string>, word: string, attempts: nat, draws: seq<NonWordDraw>)
    requires LongPool(longWords) && attempts <= 10
    ensures GenerateNonWord(longWords, word, attempts, draws) ==
      var w := AttemptWord(longWords, word, NonWordDrawAt(draws, attempts));
      var result := MutateOnce(w, NonWordDrawAt(draws, attempts));
      if |result| < 5 then GenerateNonWord(longWords, w, attempts + 1, draws) else result
  {
  }

  /** Only the draws of attempts `attempts` to ten are read: changing later
      draws never changes the result, so the recursion is bounded by the
      attempt counter. */
  lemma {:induction false} GenerateNonWordBounded(longWords: seq<string>, word: string, attempts: nat,
                                                  draws: seq<NonWordDraw>, extra: seq<NonWordDraw>)
    requires LongPool(longWords) && |draws| >= 11
    ensures GenerateNonWord(longWords, word, attempts, draws + extra) ==
      GenerateNonWord(longWords, word, attempts, draws)
    decreases 11 - attempts
  {
    if attempts <= 10 {
      var d := NonWordDrawAt(draws, attempts);
      assert NonWordDrawAt(draws + extra, attempts) == d;
      GenerateNonWordStep(longWords, word, attempts, draws + extra);
      GenerateNonWordStep(longWords, word, attempts, draws);
      GenerateNonWordBounded(longWords, AttemptWord(longWords, word, d), attempts + 1, draws, extra);
    }
  }

  /** A word of five or more letters with at most two syllables comes back
      with its middle letter redrawn and every other letter kept. */
  lemma FewSyllablesMutateMiddle(longWords: seq<string>, word: string, draws: seq<NonWordDraw>)
    requires LongPool(longWords) && |word| >= 5 && |Syllables(word)| <= 2
    ensures var r := GenerateNonWord(longWords, word, 0, draws);
      |r| == |word| && forall i :: 0 <= i < |word| && i != |word| / 2 ==> r[i] == word[i]
  {
    GenerateNonWordStep(longWords, word, 0, draws);
  }

  // ---------------------------------------------------------------------
  // createTrialsForImage

  /** How many non-words each image gets. */
  const NonWordCount: nat := 20

  /** Trials per image: target, antonym, the factor words, the non-words. */
  function TrialsPerImage(factors: seq<CommonWord>): nat {
    2 + |factors| + NonWordCount
  }

  /** `wordsForNonWords`: the words non-words are made from, which a
      non-word must differ from. */
  function Sources(factors: seq<CommonWord>, image: ImageData): (r: seq<string>)
    ensures |r| == 2 + |factors|
    ensures r[0] == image.target && r[1] == image.antonym
    ensures forall i :: 0 <= i < |factors| ==> r[2 + i] == factors[i].word
  {
    [image.target, image.antonym] + Words(factors)
  }

  /** The random choices of one pass of the non-word loop: the source word
      and the draws of its `generateNonWord` call. */
  datatype NonWordRound = NonWordRound(base: nat, draws: seq<NonWordDraw>)

  /** The candidate of one pass: a non-word made from a drawn source word. */
  function Candidate(longWords: seq<string>, sources: seq<string>, round: NonWordRound): (nw: string)
    requires LongPool(longWords) && |sources| > 0
    ensures |nw| >= 5
  {
    GenerateNonWord(longWords, sources[Reduce(round.base, |sources|)], 0, round.draws)
  }

  /** The `while (nonWords.size < 20)` loop from pass `k` on, with `found`
      the non-words so far in insertion order. A candidate that is a source
      word or already found is dropped. The source loops until twenty are
      found; here the passes are the given rounds, and `None` means they
      ran out first. */
  function CollectNonWords(longWords: seq<string>, sources: seq<string>, rounds: seq<NonWordRound>,
                           k: nat, found: seq<string>): (r: Option<seq<string>>)
    requires LongPool(longWords) && |sources| > 0 && |found| <= NonWordCount
    ensures r.Some? ==> |r.value| == NonWordCount && r.value[..|found|] == found
    ensures r.Some? ==> forall i :: |found| <= i < |r.value| ==>
      r.value[i] !in sources && |r.value[i]| >= 5
    ensures r.Some? ==> forall i, j :: 0 <= i < j < |r.value| && |found| <= j ==>
      r.value[i] != r.value[j]
    decreases |rounds| - k
  {
    if |found| >= NonWordCount then Some(found)
    else if k >= |rounds| then None
    else
      var nw := Candidate(longWords, sources, rounds[k]);
      if nw !in sources && nw !in found then
        var r := CollectNonWords(longWords, sources, rounds, k + 1, found + [nw]);
        if r.Some? then
          ExtendFound(sources, found, nw, r.value);
          r
        else r
      else CollectNonWords(longWords, sources, rounds, k + 1, found)
  }

  /** Adding a fresh non-word to `found` keeps the loop's guarantees for
      everything collected after it. */
  lemma ExtendFound(sources: seq<string>, found: seq<string>, nw: string, r: seq<string>)
    requires nw !in sources && nw !in found && |nw| >= 5
    requires |found| < |r| && r[..|found| + 1] == found + [nw]
    requires forall i :: |found| + 1 <= i < |r| ==> r[i] !in sources && |r[i]| >= 5
    requires forall i, j :: 0 <= i < j < |r| && |found| + 1 <= j ==> r[i] != r[j]
    ensures r[..|found|] == found
    ensures forall i :: |found| <= i < |r| ==> r[i] !in sources && |r[i]| >= 5
    ensures forall i, j :: 0 <= i < j < |r| && |found| <= j ==> r[i] != r[j]
  {
    assert r[|found|] == (found + [nw])[|found|] == nw;
    assert forall i :: 0 <= i < |found| ==> r[i] == (found + [nw])[i] == found[i];
    assert r[..|found|] == r[..|found| + 1][..|found|];
  }

  /** Once twenty non-words are collected, later passes are never made: the
      outcome does not depend on rounds past the ones used. */
  lemma {:induction false} CollectNonWordsBounded(longWords: seq<string>, sources: seq<string>,
                                                  rounds: seq<NonWordRound>, extra: seq<NonWordRound>,
                                                  k: nat, found: seq<string>)
    requires LongPool(longWords) && |sources| > 0 && |found| <= NonWordCount
    requires CollectNonWords(longWords, sources, rounds, k, found).Some?
    ensures CollectNonWords(longWords, sources, rounds + extra, k, found) ==
      CollectNonWords(longWords, sources, rounds, k, found)
    decreases |rounds| - k
  {
    if |found| < NonWordCount {
      var nw := Candidate(longWords, sources, rounds[k]);
      assert (rounds + extra)[k] == rounds[k];
      if nw !in sources && nw !in found {
        CollectNonWordsBounded(longWords, sources, rounds, extra, k + 1, found + [nw]);
      } else {
        CollectNonWordsBounded(longWords, sources, rounds, extra, k + 1, found);
      }
    }
  }

  /** `createTrialsForImage(image)`, with the factor list as a parameter
      (the source passes `FACTOR_WORDS`): one trial per source word and per
      non-word, all for this image. `TrialLayout` states what each position
      holds. */
  function CreateTrialsForImage(factors: seq<CommonWord>, image: ImageData,
                                rounds: seq<NonWordRound>): (r: Option<seq<Trial>>)
    requires HasLongWord(factors)
    ensures r.Some? ==> |r.value| == TrialsPerImage(factors)
  {
    match CollectNonWords(LongWords(Words(factors)), Sources(factors, image), rounds, 0, [])
    case None => None
    case Some(nonWords) => Some(FixedTrials(factors, image) + NonWordTrials(image.id, nonWords))
  }

  /** An image's trials are all for that image and begin with the target,
      the antonym and the factor words in list order. */
  lemma TrialLayout(factors: seq<CommonWord>, image: ImageData, rounds: seq<NonWordRound>)
    requires HasLongWord(factors)
    ensures var r := CreateTrialsForImage(factors, image, rounds);
      r.Some? ==>
        && (forall i :: 0 <= i < |r.value| ==> r.value[i].imageId == image.id)
        && r.value[0] == Trial(image.id, image.target, TargetWord)
        && r.value[1] == Trial(image.id, image.antonym, AntonymWord)
        && (forall i :: 0 <= i < |factors| ==> r.value[2 + i] == Trial(image.id, factors[i].word, FactorWord))
  {
    var c := CollectNonWords(LongWords(Words(factors)), Sources(factors, image), rounds, 0, []);
    if c.Some? {
      var fixed := FixedTrials(factors, image);
      var tail := NonWordTrials(image.id, c.value);
      var ts := fixed + tail;
      assert CreateTrialsForImage(factors, image, rounds) == Some(ts);
      ConcatLayout(fixed, tail);
    }
  }

  /** After the factor words come twenty distinct non-words of five or more
      letters, none of them a source word. */
  lemma NonWordLayout(factors: seq<CommonWord>, image: ImageData, rounds: seq<NonWordRound>)
    requires HasLongWord(factors)
    ensures var r := CreateTrialsForImage(factors, image, rounds);
      r.Some? ==>
        && (forall i :: 2 + |factors| <= i < |r.value| ==>
              r.value[i].wordType == NonWord && r.value[i].word !in Sources(factors, image) &&
              |r.value[i].word| >= 5)
        && (forall i, j :: 2 + |factors| <= i < j < |r.value| ==> r.value[i].word != r.value[j].word)
  {
    var c := CollectNonWords(LongWords(Words(factors)), Sources(factors, image), rounds, 0, []);
    if c.Some? {
      var fixed := FixedTrials(factors, image);
      var tail := NonWordTrials(image.id, c.value);
      var ts := fixed + tail;
      assert CreateTrialsForImage(factors, image, rounds) == Some(ts);
      ConcatLayout(fixed, tail);
      assert forall i :: 2 + |factors| <= i < |ts| ==> ts[i] == Trial(image.id, c.value[i - |fixed|], NonWord);
    }
  }

  /** Indexing into a concatenation. */
  lemma ConcatLayout<T>(a: seq<T>, b: seq<T>)
    ensures forall i :: 0 <= i < |a| ==> (a + b)[i] == a[i]
    ensures forall i :: |a| <= i < |a| + |b| ==> (a + b)[i] == b[i - |a|]
  {
  }

  /** One non-word trial per word, in order. */
  function NonWordTrials(imageId: string, words: seq<string>): (r: seq<Trial>)
    ensures |r| == |words|
    ensures forall i :: 0 <= i < |r| ==> r[i] == Trial(imageId, words[i], NonWord)
  {
    seq(|words|, i requires 0 <= i < |words| => Trial(imageId, words[i], NonWord))
  }

  /** The trials every image gets before its non-words. */
  function FixedTrials(factors: seq<CommonWord>, image: ImageData): (r: seq<Trial>)
    ensures |r| == 2 + |factors|
    ensures forall i :: 0 <= i < |r| ==> r[i].imageId == image.id
    ensures r[0] == Trial(image.id, image.target, TargetWord)
    ensures r[1] == Trial(image.id, image.antonym, AntonymWord)
    ensures forall i :: 0 <= i < |factors| ==> r[2 + i] == Trial(image.id, factors[i].word, FactorWord)
  {
    [Trial(image.id, image.target, TargetWord), Trial(image.id, image.antonym, AntonymWord)] +
      seq(|factors|, i requires 0 <= i < |factors| => Trial(image.id, factors[i].word, FactorWord))
  }

  /** Each image has exactly one target trial and one antonym trial. */
  lemma OneTargetOneAntonym(factors: seq<CommonWord>, image: ImageData, rounds: seq<NonWordRound>, i: nat)
    requires HasLongWord(factors)
    ensures var r := CreateTrialsForImage(factors, image, rounds);
      r.Some? && i < |r.value| ==>
        (r.value[i].wordType == TargetWord <==> i == 0) && (r.value[i].wordType == AntonymWord <==> i == 1)
  {
    TrialLayout(factors, image, rounds);
  }

  // ---------------------------------------------------------------------
  // createSession

  /** `images.filter(img => !completedImages.has(img.id))`. */
  function Uncompleted(images: seq<ImageData>, completed: set<string>): (r: seq<ImageData>)
    ensures |r| <= |images|
    ensures forall i :: 0 <= i < |r| ==> r[i].id !in completed
  {
    if |images| == 0 then []
    else (if images[0].id in completed then [] else [images[0]]) + Uncompleted(images[1..], completed)
  }

  /** The filter keeps exactly the images whose id is not completed. */
  lemma {:induction false} UncompletedMembers(images: seq<ImageData>, completed: set<string>, x: ImageData)
    ensures x in Uncompleted(images, completed) <==> x in images && x.id !in completed
  {
    if |images| > 0 {
      UncompletedMembers(images[1..], completed, x);
      assert images == [images[0]] + images[1..];
    }
  }

  /** The images a session may use and the completed set afterwards. When
      the completed set is at least as large as the image list, a new round
      starts: the set is cleared and every image is available. */
  function Availability(images: seq<ImageData>, completed: set<string>): (r: (seq<ImageData>, set<string>))
    ensures |completed| >= |images| ==> r == (images, {})
    ensures |completed| < |images| ==> r.1 == completed
    ensures |completed| < |images| ==> forall x :: x in r.0 <==> x in images && x.id !in completed
  {
    if |completed| >= |images| then (images, {})
    else
      var avail := Uncompleted(images, completed);
      assert forall x :: x in avail <==> x in images && x.id !in completed by {
        forall x {
          UncompletedMembers(images, completed, x);
        }
      }
      (avail, completed)
  }

  /** The ids of a list of images. */
  function IdSet(images: seq<ImageData>): (r: set<string>)
    ensures |r| <= |images|
  {
    if |images| == 0 then {} else {images[0].id} + IdSet(images[1..])
  }

  lemma {:induction false} IdSetMembers(images: seq<ImageData>, id: string)
    ensures id in IdSet(images) <==> exists i :: 0 <= i < |images| && images[i].id == id
  {
    if |images| > 0 {
      IdSetMembers(images[1..], id);
      if id in IdSet(images[1..]) {
        var i :| 0 <= i < |images| - 1 && images[1..][i].id == id;
        assert images[i + 1].id == id;
      }
      if exists i :: 0 <= i < |images| && images[i].id == id {
        var i :| 0 <= i < |images| && images[i].id == id;
        if i > 0 {
          assert images[1..][i - 1].id == id;
        }
      }
    }
  }

  /** No two images share an id. */
  predicate DistinctIds(images: seq<ImageData>) {
    forall i, j :: 0 <= i < j < |images| ==> images[i].id != images[j].id
  }

  /** Distinct ids: one per image. */
  lemma {:induction false} IdSetSize(images: seq<ImageData>)
    requires DistinctIds(images)
    ensures |IdSet(images)| == |images|
  {
    if |images| > 0 {
      IdSetSize(images[1..]);
      IdSetMembers(images[1..], images[0].id);
      assert images[0].id !in IdSet(images[1..]);
    }
  }

  /** A subset at least as large as its superset is the whole set. */
  lemma SubsetOfSameSize<T>(a: set<T>, b: set<T>)
    requires a <= b
    ensures |a| <= |b|
    ensures |a| >= |b| ==> a == b
  {
    assert b == a + (b - a);
    assert |b| == |a| + |b - a|;
    if |a| >= |b| {
      assert |b - a| == 0;
    }
  }

  /** With distinct image ids and a completed set holding only ids of the
      images, the size test that starts a new round is the test that every
      image has been completed. */
  lemma ResetExactlyWhenAllCompleted(images: seq<ImageData>, completed: set<string>)
    requires DistinctIds(images) && completed <= IdSet(images)
    ensures |completed| >= |images| <==> IdSet(images) <= completed
  {
    IdSetSize(images);
    SubsetOfSameSize(completed, IdSet(images));
    if IdSet(images) <= completed {
      SubsetOfSameSize(IdSet(images), completed);
    }
  }

  /** The size test also counts ids of images that are no longer listed: a
      stale id `x` next to the completed `a` makes both images `a` and `b`
      available again, although `b` alone was not completed. */
  lemma StaleIdStartsNewRound(a: ImageData, b: ImageData)
    requires a.id == "a" && b.id == "b"
    ensures Availability([a, b], {"a", "x"}) == ([a, b], {})
    ensures Uncompleted([a, b], {"a", "x"}) == [b]
  {
    assert |{"a", "x"}| == 2;
    assert Uncompleted([b], {"a", "x"}) == [b];
    assert [a, b][1..] == [b];
  }

  /** Each session image's trials, image `m` reading the rounds
      `rounds[m]`. */
  function ImageBlocks(factors: seq<CommonWord>, selected: seq<ImageData>,
                       rounds: seq<seq<NonWordRound>>): (r: seq<Option<seq<Trial>>>)
    requires HasLongWord(factors)
    ensures |r| == |selected|
    ensures forall m :: 0 <= m < |r| ==> r[m] == CreateTrialsForImage(factors, selected[m], SeqAt(rounds, m))
  {
    seq(|selected|, m requires 0 <= m < |selected| => CreateTrialsForImage(factors, selected[m], SeqAt(rounds, m)))
  }

  /** The element at `k`, or empty past the end. */
  function SeqAt<T>(s: seq<seq<T>>, k: nat): seq<T> {
    if k < |s| then s[k] else []
  }

  /** `flatMap` over blocks that may be missing: the blocks joined in order,
      or `None` when one is missing. */
  function FlatMap<T>(blocks: seq<Option<seq<T>>>): (r: Option<seq<T>>)
    ensures r.Some? <==> forall m :: 0 <= m < |blocks| ==> blocks[m].Some?
  {
    if |blocks| == 0 then Some([])
    else
      var rest := FlatMap(blocks[1..]);
      if blocks[0].None? || rest.None? then None
      else
        assert forall m :: 1 <= m < |blocks| ==> blocks[m] == blocks[1..][m - 1];
        Some(blocks[0].value + rest.value)
  }

  /** Blocks of `n` elements each join to `|blocks| * n` elements. */
  lemma {:induction false} FlatMapLength<T>(blocks: seq<Option<seq<T>>>, n: nat)
    requires forall m :: 0 <= m < |blocks| ==> blocks[m].Some? && |blocks[m].value| == n
    ensures FlatMap(blocks).Some? && |FlatMap(blocks).value| == |blocks| * n
  {
    if |blocks| > 0 {
      FlatMapLength(blocks[1..], n);
      MulStep(|blocks|, n);
    }
  }

  lemma MulStep(a: nat, n: nat)
    requires a > 0
    ensures a * n == n + (a - 1) * n
  {
  }

  /** Every block is contained, as a multiset, in the joined list. */
  lemma {:induction false} FlatMapContains<T>(blocks: seq<Option<seq<T>>>, m: nat)
    requires FlatMap(blocks).Some? && m < |blocks|
    ensures multiset(blocks[m].value) <= multiset(FlatMap(blocks).value)
  {
    var rest := FlatMap(blocks[1..]);
    MultisetOfConcat(blocks[0].value, rest.value);
    if m > 0 {
      FlatMapContains(blocks[1..], m - 1);
      assert blocks[1..][m - 1] == blocks[m];
    }
  }

  lemma MultisetOfConcat<T>(a: seq<T>, b: seq<T>)
    ensures multiset(a) <= multiset(a + b) && multiset(b) <= multiset(a + b)
  {
    assert multiset(a + b) == multiset(a) + multiset(b);
  }

  /** Every element of the joined list comes from some block. */
  lemma {:induction false} FlatMapMembers<T>(blocks: seq<Option<seq<T>>>, t: T)
    requires FlatMap(blocks).Some? && t in FlatMap(blocks).value
    ensures exists m :: 0 <= m < |blocks| && t in blocks[m].value
  {
    if t !in blocks[0].value {
      FlatMapMembers(blocks[1..], t);
      var m :| 0 <= m < |blocks| - 1 && t in blocks[1..][m].value;
      assert t in blocks[m + 1].value;
    }
  }

  /** Every trial of the joined list belongs to one of the session images. */
  lemma TrialsForImages(factors: seq<CommonWord>, selected: seq<ImageData>,
                        rounds: seq<seq<NonWordRound>>, t: Trial)
    requires HasLongWord(factors)
    ensures FlatMap(ImageBlocks(factors, selected, rounds)).Some? && t in FlatMap(ImageBlocks(factors, selected, rounds)).value ==>
      exists m :: 0 <= m < |selected| && t.imageId == selected[m].id
  {
    var blocks := ImageBlocks(factors, selected, rounds);
    if FlatMap(blocks).Some? && t in FlatMap(blocks).value {
      FlatMapMembers(blocks, t);
      var m :| 0 <= m < |blocks| && t in blocks[m].value;
      TrialLayout(factors, selected[m], SeqAt(rounds, m));
      var i :| 0 <= i < |blocks[m].value| && blocks[m].value[i] == t;
    }
  }

  /** A session image's whole trial list is part of the joined list. */
  lemma TrialsForContains(factors: seq<CommonWord>, selected: seq<ImageData>,
                          rounds: seq<seq<NonWordRound>>, m: nat)
    requires HasLongWord(factors)
    requires FlatMap(ImageBlocks(factors, selected, rounds)).Some? && m < |selected|
    ensures CreateTrialsForImage(factors, selected[m], SeqAt(rounds, m)).Some?
    ensures multiset(CreateTrialsForImage(factors, selected[m], SeqAt(rounds, m)).value) <=
      multiset(FlatMap(ImageBlocks(factors, selected, rounds)).value)
  {
    FlatMapContains(ImageBlocks(factors, selected, rounds), m);
  }

  /** When every image has its trials, the joined list holds one full block
      per session image. */
  lemma TrialsForLength(factors: seq<CommonWord>, selected: seq<ImageData>, rounds: seq<seq<NonWordRound>>)
    requires HasLongWord(factors)
    ensures FlatMap(ImageBlocks(factors, selected, rounds)).Some? ==>
      |FlatMap(ImageBlocks(factors, selected, rounds)).value| == |selected| * TrialsPerImage(factors)
  {
    if FlatMap(ImageBlocks(factors, selected, rounds)).Some? {
      FlatMapLength(ImageBlocks(factors, selected, rounds), TrialsPerImage(factors));
    }
  }

  /** The random choices of a session: the image shuffle, the non-word
      rounds of each session image, and the trial shuffle. */
  datatype SessionDraws = SessionDraws(images: seq<nat>, rounds: seq<seq<NonWordRound>>, trials: seq<nat>)

  /** What `createSession` gives back: `null` for too few images, or a
      session. `DrawsExhausted` is the model's name for draws that ran out
      before every image had its twenty non-words. */
  datatype SessionOutcome = NotEnoughImages | DrawsExhausted | Created(session: Session)

  /** `createSession(participantId, images, completedImages, imagesPerSession)`
      with the factor list as a parameter. The participant id is only
      logged and is left out. The outcome comes with the completed set as
      the call leaves it (the source clears it in place). */
  function CreateSession(factors: seq<CommonWord>, images: seq<ImageData>, completed: set<string>,
                         perSession: nat, draws: SessionDraws): (r: (SessionOutcome, set<string>))
    requires HasLongWord(factors)
    ensures r.1 == if |completed| >= |images| then {} else completed
    ensures r.0 == NotEnoughImages <==> |Availability(images, completed).0| < perSession
    ensures r.0.Created? ==> r.0.session.currentTrialIndex == 0 && !r.0.session.completed
  {
    var (avail, remaining) := Availability(images, completed);
    if |avail| < perSession then (NotEnoughImages, remaining)
    else
      var selected := SessionImages(avail, perSession, draws.images);
      match FlatMap(ImageBlocks(factors, selected, draws.rounds))
      case None => (DrawsExhausted, remaining)
      case Some(ts) => (Created(Session(Shuffle(ts, draws.trials), 0, false)), remaining)
  }

  /** `shuffleArray(availableImages).slice(0, imagesPerSession)`. */
  function SessionImages(avail: seq<ImageData>, perSession: nat, draws: seq<nat>): (r: seq<ImageData>)
    requires perSession <= |avail|
    ensures |r| == perSession
  {
    Shuffle(avail, draws)[..perSession]
  }

  /** The session images are distinct picks from the available images: as a
      multiset they are contained in them. */
  lemma SessionImagesPicked(avail: seq<ImageData>, perSession: nat, draws: seq<nat>)
    requires perSession <= |avail|
    ensures multiset(SessionImages(avail, perSession, draws)) <= multiset(avail)
  {
    var sh := Shuffle(avail, draws);
    ShufflePermutes(avail, draws);
    assert sh == sh[..perSession] + sh[perSession..];
  }

  /** A created session holds exactly the trials of its images, reordered:
      the trial list is a permutation of the flat per-image list. */
  lemma SessionIsPermutation(factors: seq<CommonWord>, images: seq<ImageData>, completed: set<string>,
                             perSession: nat, draws: SessionDraws)
    requires HasLongWord(factors)
    ensures var r := CreateSession(factors, images, completed, perSession, draws).0;
      r.Created? ==>
        var avail := Availability(images, completed).0;
        var ts := FlatMap(ImageBlocks(factors, SessionImages(avail, perSession, draws.images), draws.rounds));
        ts.Some? && multiset(r.session.trials) == multiset(ts.value)
  {
    var avail := Availability(images, completed).0;
    if |avail| >= perSession {
      var ts := FlatMap(ImageBlocks(factors, SessionImages(avail, perSession, draws.images), draws.rounds));
      if ts.Some? {
        ShufflePermutes(ts.value, draws.trials);
      }
    }
  }

  /** Outside a new round, a session never shows an image whose id is in
      the completed set: every trial's image is an available image. */
  lemma SessionAvoidsCompleted(factors: seq<CommonWord>, images: seq<ImageData>, completed: set<string>,
                               perSession: nat, draws: SessionDraws, t: Trial)
    requires HasLongWord(factors)
    ensures var r := CreateSession(factors, images, completed, perSession, draws).0;
      r.Created? && t in r.session.trials ==>
        (exists img :: img in images && img.id == t.imageId) &&
        (|completed| < |images| ==> t.imageId !in completed)
  {
    var r := CreateSession(factors, images, completed, perSession, draws).0;
    var avail := Availability(images, completed).0;
    if r.Created? && t in r.session.trials {
      var selected := SessionImages(avail, perSession, draws.images);
      var ts := FlatMap(ImageBlocks(factors, selected, draws.rounds)).value;
      SessionIsPermutation(factors, images, completed, perSession, draws);
      assert t in multiset(ts);
      TrialsForImages(factors, selected, draws.rounds, t);
      var m :| 0 <= m < |selected| && t.imageId == selected[m].id;
      SessionImagesPicked(avail, perSession, draws.images);
      assert selected[m] in multiset(avail);
      assert selected[m] in images;
    }
  }
}
