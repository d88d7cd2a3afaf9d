/** The two mutation operators of non_word_generator.py:
    `mutate_by_replacing_letter` and `mutate_by_swapping_letters`.

    Randomness is an explicit oracle: attempt `k` reads the `k`-th draw record
    (a missing record reads as all zeros), and a drawn number selects the
    option at that index of the range the source draws from (a number past
    the end selects the first option). So every choice the source can make
    is some draw, and every property below holds for every draw. */
module Mutation {
  import opened Wrappers
  import opened Alphabet
  import opened Plausibility
  import opened Sequences

  /** Both mutators make ten randomized attempts. */
  const Attempts: nat := 10

  /** The acceptance gate shared by both mutators: the candidate differs from
      the original ignoring case, is not a known real word (the set holds
      lower-cased words) and passes the plausibility filter. */
  predicate Accepted(original: string, candidate: string, realWords: set<string>) {
    && LowerStr(candidate) != LowerStr(original)
    && LowerStr(candidate) !in realWords
    && IsPlausible(candidate)
  }

  // ---------------------------------------------------------------------
  // Replacement

  /** The random choices of one replacement attempt: the interior position
      (`random.randint(1, n - 2)`) and the replacement letter
      (`random.choice` over the letters of the same class but the original). */
  datatype ReplaceDraw = ReplaceDraw(position: nat, letter: nat)

  function ReplaceDrawAt(draws: seq<ReplaceDraw>, k: nat): ReplaceDraw {
    if k < |draws| then draws[k] else ReplaceDraw(0, 0)
  }

  /** The letters of the class of `lo`, or nothing when `lo` is neither a
      vowel nor a consonant. */
  function ClassLetters(lo: char): string {
    if IsVowel(lo) then Vowels else if IsConsonant(lo) then Consonants else ""
  }

  /** `r` is `w` with exactly position `i` changed: `i` is interior, the new
      letter is a different letter of the same class as the old one, and it
      carries the old letter's case. */
  predicate ReplacedAt(w: string, r: string, i: int) {
    && 1 <= i <= |w| - 2
    && |r| == |w|
    && (forall j :: 0 <= j < |w| && j != i ==> r[j] == w[j])
    && ClassOf(Lower(w[i])) != Other
    && ClassOf(Lower(r[i])) == ClassOf(Lower(w[i]))
    && Lower(r[i]) != Lower(w[i])
    && r[i] == (if IsUpper(w[i]) then Upper(Lower(r[i])) else Lower(r[i]))
  }

  /** `random.choice` over the letters of the class of `lo` other than `lo`
      itself; `None` when `lo` is in neither class. */
  function PickReplacement(lo: char, pick: nat): (r: Option<char>)
    ensures r.Some? ==> ClassOf(lo) != Other && ClassOf(r.value) == ClassOf(lo) && r.value != lo
  {
    var pool := Without(ClassLetters(lo), lo);
    if |pool| == 0 then None
    else
      var letter := pool[Reduce(pick, |pool|)];
      WithoutMembers(ClassLetters(lo), lo, letter);
      ClassesListed(letter);
      ClassesListed(lo);
      Some(letter)
  }

  /** The replacement letter in the case of the letter it replaces. */
  function WithCaseOf(original: char, letter: char): char {
    if IsUpper(original) then Upper(letter) else letter
  }

  /** The choices of one replacement attempt: the drawn interior position
      and the letter drawn for it; `None` when that position holds neither a
      vowel nor a consonant. */
  function ReplaceChoice(word: string, d: ReplaceDraw): (r: Option<(nat, char)>)
    requires |word| >= 4
    ensures r.Some? ==> 1 <= r.value.0 <= |word| - 2
  {
    var idx := 1 + Reduce(d.position, |word| - 2);
    match PickReplacement(Lower(word[idx]), d.letter)
    case None => None
    case Some(letter) => Some((idx, letter))
  }

  /** The chosen letter is a different letter of the class of the letter it
      replaces. */
  lemma ChoiceIsSameClass(word: string, d: ReplaceDraw)
    requires |word| >= 4 && ReplaceChoice(word, d).Some?
    ensures var (idx, letter) := ReplaceChoice(word, d).value;
      var lo := Lower(word[idx]);
      ClassOf(lo) != Other && ClassOf(letter) == ClassOf(lo) && letter != lo
  {
  }

  /** `word` with the letter at `idx` replaced by `letter` in its case. */
  function Replaced(word: string, idx: nat, letter: char): string
    requires idx < |word|
  {
    word[idx := WithCaseOf(word[idx], letter)]
  }

  /** Writing a different letter of the same class, in the old letter's case,
      at an interior position is a replacement. */
  lemma ReplacedIsReplacement(word: string, idx: nat, letter: char)
    requires 1 <= idx <= |word| - 2
    requires ClassOf(Lower(word[idx])) != Other && ClassOf(letter) == ClassOf(Lower(word[idx]))
    requires letter != Lower(word[idx])
    ensures ReplacedAt(word, Replaced(word, idx, letter), idx)
  {
    LetterCaseRoundTrip(letter);
  }

  /** The candidate one replacement attempt builds, before the gate. */
  function ReplaceCandidate(word: string, d: ReplaceDraw): (r: Option<string>)
    requires |word| >= 4
    ensures r.Some? ==> exists i :: ReplacedAt(word, r.value, i)
  {
    match ReplaceChoice(word, d)
    case None => None
    case Some((idx, letter)) =>
      ChoiceIsSameClass(word, d);
      ReplacedIsReplacement(word, idx, letter);
      Some(Replaced(word, idx, letter))
  }

  /** Attempts `k`, `k + 1`, ... of the replacement loop. */
  function ReplaceFrom(word: string, realWords: set<string>, draws: seq<ReplaceDraw>, k: nat): (r: Option<string>)
    requires |word| >= 4
    ensures r.Some? ==> exists i :: ReplacedAt(word, r.value, i)
    ensures r.Some? ==> Accepted(word, r.value, realWords)
    decreases Attempts - k
  {
    if k >= Attempts then None
    else
      var c := ReplaceCandidate(word, ReplaceDrawAt(draws, k));
      if c.Some? && Accepted(word, c.value, realWords) then c
      else ReplaceFrom(word, realWords, draws, k + 1)
  }

  /** `mutate_by_replacing_letter(word, real_words_set)`. */
  function ReplaceLetter(word: string, realWords: set<string>, draws: seq<ReplaceDraw>): (r: Option<string>)
    ensures |word| < 4 ==> r == None
    ensures r.Some? ==> exists i :: ReplacedAt(word, r.value, i)
    ensures r.Some? ==> Accepted(word, r.value, realWords)
    ensures r.Some? ==> r.value[0] == word[0] && r.value[|word| - 1] == word[|word| - 1]
  {
    if |word| < 4 then None else ReplaceFrom(word, realWords, draws, 0)
  }

  /** Every acceptable replacement is reachable: whatever interior letter and
      whatever same-class letter an acceptable candidate uses, the first
      attempt can draw exactly it. */
  lemma ReplaceReachable(word: string, realWords: set<string>, candidate: string, i: nat)
    requires |word| >= 4
    requires ReplacedAt(word, candidate, i) && Accepted(word, candidate, realWords)
    ensures exists d :: ReplaceLetter(word, realWords, [d]) == Some(candidate)
  {
    var d := ReplaceDrawFor(word, candidate, i);
    assert ReplaceFrom(word, realWords, [d], 0) == Some(candidate);
  }

  /** The draw that makes one replacement attempt build `candidate`. */
  lemma ReplaceDrawFor(word: string, candidate: string, i: nat) returns (d: ReplaceDraw)
    requires |word| >= 4 && ReplacedAt(word, candidate, i)
    ensures ReplaceCandidate(word, d) == Some(candidate)
  {
    var lo := Lower(word[i]);
    var letter := Lower(candidate[i]);
    var pool := Without(ClassLetters(lo), lo);
    SameClassLetterInPool(lo, letter);
    var j :| 0 <= j < |pool| && pool[j] == letter;
    d := ReplaceDraw(i - 1, j);
    ChoiceAt(word, i, j);
    assert Replaced(word, i, letter) == candidate;
  }

  /** Drawing position `i - 1` and letter `j` chooses position `i` and the
      `j`-th replacement letter. */
  lemma ChoiceAt(word: string, i: nat, j: nat)
    requires |word| >= 4 && 1 <= i <= |word| - 2
    requires j < |Without(ClassLetters(Lower(word[i])), Lower(word[i]))|
    ensures ReplaceChoice(word, ReplaceDraw(i - 1, j)) ==
      Some((i, Without(ClassLetters(Lower(word[i])), Lower(word[i]))[j]))
  {
    var lo := Lower(word[i]);
    var pool := Without(ClassLetters(lo), lo);
    assert 1 + Reduce(i - 1, |word| - 2) == i;
    assert Reduce(j, |pool|) == j;
    assert PickReplacement(lo, j) == Some(pool[j]);
  }

  /** A different letter of the same class is among the replacement letters. */
  lemma SameClassLetterInPool(lo: char, letter: char)
    requires ClassOf(lo) != Other && ClassOf(letter) == ClassOf(lo) && letter != lo
    ensures letter in Without(ClassLetters(lo), lo)
  {
    ClassesListed(letter);
    ClassesListed(lo);
    WithoutMembers(ClassLetters(lo), lo, letter);
  }

  // ---------------------------------------------------------------------
  // Swap

  /** The random choices of one swap attempt: the coin deciding between the
      vowel and the consonant pool when both qualify (`random.random() < 0.5`
      picks vowels), and the two picks from the pool. */
  datatype SwapDraw = SwapDraw(pickVowels: bool, first: nat, second: nat)

  function SwapDrawAt(draws: seq<SwapDraw>, k: nat): SwapDraw {
    if k < |draws| then draws[k] else SwapDraw(false, 0, 0)
  }

  /** The word ends in the adverb suffix `но` or `во` (compared as written,
      without lower-casing), whose `н`/`в` at index `n - 2` is protected. */
  predicate EndsProtected(word: string) {
    |word| >= 2 && (word[|word| - 2..] == "но" || word[|word| - 2..] == "во")
  }

  /** Interior positions `lo..hi-1` holding a letter of class `k`, skipping
      the protected index `n - 2` when the word ends protected. */
  function SwapPoolFrom(word: string, k: LetterClass, lo: nat, hi: nat): (pool: seq<nat>)
    requires hi <= |word|
    ensures forall x :: x in pool <==>
      lo <= x < hi && ClassOf(Lower(word[x])) == k && !(EndsProtected(word) && x == |word| - 2)
    decreases hi - lo
  {
    if lo >= hi then []
    else
      var rest := SwapPoolFrom(word, k, lo + 1, hi);
      if ClassOf(Lower(word[lo])) == k && !(EndsProtected(word) && lo == |word| - 2)
      then [lo] + rest else rest
  }

  /** `vowel_indices` / `consonant_indices`: the interior positions of one
      class that may take part in a swap. */
  function SwapPool(word: string, k: LetterClass): (pool: seq<nat>)
    requires |word| >= 2
    ensures forall x :: x in pool <==>
      1 <= x <= |word| - 2 && ClassOf(Lower(word[x])) == k && !(EndsProtected(word) && x == |word| - 2)
  {
    SwapPoolFrom(word, k, 1, |word| - 1)
  }

  /** Which class an attempt swaps: consonants when forced, else vowels when
      forced, else a coin toss when both pools hold two positions, else the
      pool that does; `None` abandons the attempt. */
  function ChooseClass(canVowels: bool, canConsonants: bool, forceConsonants: bool, forceVowels: bool, pickVowels: bool): (k: Option<LetterClass>)
    ensures k.Some? ==> (k.value == Vowel && canVowels) || (k.value == Consonant && canConsonants)
    ensures k.Some? && forceConsonants ==> k.value == Consonant
    ensures k.Some? && forceVowels && !forceConsonants ==> k.value == Vowel
    ensures !forceConsonants && !forceVowels && (canVowels || canConsonants) ==> k.Some?
  {
    if forceConsonants then (if canConsonants then Some(Consonant) else None)
    else if forceVowels then (if canVowels then Some(Vowel) else None)
    else if canVowels && canConsonants then (if pickVowels then Some(Vowel) else Some(Consonant))
    else if canConsonants then Some(Consonant)
    else if canVowels then Some(Vowel)
    else None
  }

  /** Some vowel lies strictly between positions `a` and `b` of `word`. */
  predicate VowelBetween(word: string, a: int, b: int)
    requires 0 <= a <= b <= |word|
  {
    exists m | a < m < b :: IsVowel(Lower(word[m]))
  }

  function Min(a: nat, b: nat): nat {
    if a < b then a else b
  }

  /** `r` is `word` with the interior positions `i < j` exchanged, both of
      one class, neither the protected `н`/`в` of a `-но`/`-во` ending, both
      consonants when consonants are forced and both vowels when only vowels
      are, and with a vowel between them when they are consonants. */
  predicate SwappedAt(word: string, r: string, i: int, j: int, forceConsonants: bool, forceVowels: bool) {
    && 1 <= i < j <= |word| - 2
    && r == Swap(word, i, j)
    && ClassOf(Lower(word[i])) == ClassOf(Lower(word[j])) != Other
    && !(EndsProtected(word) && (i == |word| - 2 || j == |word| - 2))
    && (forceConsonants ==> ClassOf(Lower(word[i])) == Consonant)
    && (forceVowels && !forceConsonants ==> ClassOf(Lower(word[i])) == Vowel)
    && (ClassOf(Lower(word[i])) == Consonant ==> VowelBetween(word, i, j))
  }

  /** The two positions one swap attempt picks once the class `k` is chosen:
      a position of the pool and a different one; `None` when they are
      consonants with no vowel between them. */
  function SwapChoice(word: string, k: LetterClass, first: nat, second: nat): (r: Option<(nat, nat)>)
    requires |word| >= 5 && k != Other && |SwapPool(word, k)| >= 2
    ensures r.Some? ==> r.value.0 in SwapPool(word, k) && r.value.1 in SwapPool(word, k)
    ensures r.Some? ==> r.value.0 != r.value.1
    ensures r.Some? && k == Consonant ==>
      VowelBetween(word, Min(r.value.0, r.value.1), Max(r.value.0, r.value.1))
  {
    var pool := SwapPool(word, k);
    var i1 := pool[Reduce(first, |pool|)];
    var rest := Without(pool, i1);
    if |rest| == 0 then None
    else
      var i2 := rest[Reduce(second, |rest|)];
      WithoutMembers(pool, i1, i2);
      assert i1 in pool && i2 in pool;
      if k == Consonant && !VowelBetween(word, Min(i1, i2), Max(i1, i2)) then None
      else Some((i1, i2))
  }

  /** The candidate one swap attempt builds, before the gate. */
  function SwapCandidate(word: string, forceConsonants: bool, forceVowels: bool, d: SwapDraw): (r: Option<string>)
    requires |word| >= 5
    ensures r.Some? ==> exists i, j :: SwappedAt(word, r.value, i, j, forceConsonants, forceVowels)
  {
    var vowels := SwapPool(word, Vowel);
    var consonants := SwapPool(word, Consonant);
    match ChooseClass(|vowels| >= 2, |consonants| >= 2, forceConsonants, forceVowels, d.pickVowels)
    case None => None
    case Some(k) =>
      match SwapChoice(word, k, d.first, d.second)
      case None => None
      case Some((i1, i2)) =>
        SwapSymmetric(word, i1, i2);
        assert SwappedAt(word, Swap(word, i1, i2), Min(i1, i2), Max(i1, i2), forceConsonants, forceVowels);
        Some(Swap(word, i1, i2))
  }

  /** Attempts `k`, `k + 1`, ... of the swap loop. */
  function SwapFrom(word: string, realWords: set<string>, forceConsonants: bool, forceVowels: bool,
                    draws: seq<SwapDraw>, k: nat): (r: Option<string>)
    requires |word| >= 5
    ensures r.Some? ==> exists i, j :: SwappedAt(word, r.value, i, j, forceConsonants, forceVowels)
    ensures r.Some? ==> Accepted(word, r.value, realWords)
    decreases Attempts - k
  {
    if k >= Attempts then None
    else
      var c := SwapCandidate(word, forceConsonants, forceVowels, SwapDrawAt(draws, k));
      if c.Some? && Accepted(word, c.value, realWords) then c
      else SwapFrom(word, realWords, forceConsonants, forceVowels, draws, k + 1)
  }

  /** `mutate_by_swapping_letters(word, real_words_set, force_consonants,
      force_vowels)`. */
  function SwapLetters(word: string, realWords: set<string>, forceConsonants: bool, forceVowels: bool,
                       draws: seq<SwapDraw>): (r: Option<string>)
    ensures |word| < 5 ==> r == None
    ensures r.Some? ==> exists i, j :: SwappedAt(word, r.value, i, j, forceConsonants, forceVowels)
    ensures r.Some? ==> Accepted(word, r.value, realWords)
  {
    if |word| < 5 then None else SwapFrom(word, realWords, forceConsonants, forceVowels, draws, 0)
  }

  /** A swap result keeps the first and last characters and the multiset of
      letters of the word, and so its length. */
  lemma SwapKeepsEndsAndLetters(word: string, r: string, i: int, j: int, fc: bool, fv: bool)
    requires SwappedAt(word, r, i, j, fc, fv)
    ensures |r| == |word| && r[0] == word[0] && r[|r| - 1] == word[|word| - 1]
    ensures multiset(r) == multiset(word)
  {
    SwapMultiset(word, i, j);
  }

  /** Every acceptable vowel swap of a word of five or more letters is
      reachable: the first attempt can draw exactly its two positions. */
  lemma VowelSwapReachable(word: string, realWords: set<string>, r: string, i: nat, j: nat)
    requires |word| >= 5
    requires SwappedAt(word, r, i, j, false, true) && Accepted(word, r, realWords)
    ensures exists d :: SwapLetters(word, realWords, false, true, [d]) == Some(r)
  {
    var pool := SwapPool(word, Vowel);
    assert i in pool && j in pool;
    var a :| 0 <= a < |pool| && pool[a] == i;
    WithoutMembers(pool, i, j);
    WithoutShorter(pool, i);
    var rest := Without(pool, i);
    var b :| 0 <= b < |rest| && rest[b] == j;
    var d := SwapDraw(true, a, b);
    VowelCandidateAt(word, r, i, j, a, b);
    assert SwapDrawAt([d], 0) == d;
    assert SwapFrom(word, realWords, false, true, [d], 0) == Some(r);
  }

  /** The draw of pool indices `a` and `b` builds the vowel swap of the
      positions at those indices. */
  lemma VowelCandidateAt(word: string, r: string, i: nat, j: nat, a: nat, b: nat)
    requires |word| >= 5 && SwappedAt(word, r, i, j, false, true)
    requires a < |SwapPool(word, Vowel)| && SwapPool(word, Vowel)[a] == i
    requires b < |Without(SwapPool(word, Vowel), i)| && Without(SwapPool(word, Vowel), i)[b] == j
    ensures SwapCandidate(word, false, true, SwapDraw(true, a, b)) == Some(r)
  {
    var pool := SwapPool(word, Vowel);
    WithoutShorter(pool, i);
    VowelChoiceAt(word, a, b);
    SwapSymmetric(word, i, j);
  }

  /** Drawing pool indices `a` and `b` picks the `a`-th vowel position of
      the pool and the `b`-th of the rest. */
  lemma VowelChoiceAt(word: string, a: nat, b: nat)
    requires |word| >= 5 && |SwapPool(word, Vowel)| >= 2 && a < |SwapPool(word, Vowel)|
    requires b < |Without(SwapPool(word, Vowel), SwapPool(word, Vowel)[a])|
    ensures SwapChoice(word, Vowel, a, b) ==
      Some((SwapPool(word, Vowel)[a], Without(SwapPool(word, Vowel), SwapPool(word, Vowel)[a])[b]))
  {
    var pool := SwapPool(word, Vowel);
    assert Reduce(a, |pool|) == a;
    assert Reduce(b, |Without(pool, pool[a])|) == b;
  }
}
