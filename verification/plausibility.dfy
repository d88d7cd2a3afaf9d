/** The phonotactic plausibility filter of non_word_generator.py
    (`is_phonotactically_plausible`): four rules evaluated on the lower-cased
    word, with words shorter than three characters accepted outright. */
module Plausibility {
  import opened Alphabet

  /** `cluster in word`: `c` occurs in `w` as a contiguous piece. */
  predicate Occurs(c: string, w: string) {
    exists i | 0 <= i <= |w| - |c| :: OccursAt(c, w, i)
  }

  /** `c` occurs in `w` starting at position `i`. */
  predicate OccursAt(c: string, w: string, i: int) {
    0 <= i <= |w| - |c| && w[i..i + |c|] == c
  }

  /** Rule 1 fails: some forbidden cluster occurs in the (lower-cased) word. */
  predicate HasForbiddenCluster(w: string) {
    exists k :: 0 <= k < |ForbiddenClusters| && Occurs(ForbiddenClusters[k], w)
  }

  /** The counters of the left-to-right scan of rule 2: the current and the
      longest consonant and vowel runs seen so far. */
  datatype RunScan = RunScan(curConsonants: nat, curVowels: nat, maxConsonants: nat, maxVowels: nat)

  /** The scan of rule 2 over the whole word, one character at a time: a
      consonant extends the consonant run and ends the vowel run, a vowel the
      reverse, any other character ends both. */
  function ScanRuns(w: string): RunScan
  {
    if |w| == 0 then RunScan(0, 0, 0, 0)
    else
      var s := ScanRuns(w[..|w| - 1]);
      var c := w[|w| - 1];
      var cc := if ClassOf(c) == Consonant then s.curConsonants + 1 else 0;
      var cv := if ClassOf(c) == Vowel then s.curVowels + 1 else 0;
      RunScan(cc, cv, Max(s.maxConsonants, cc), Max(s.maxVowels, cv))
  }

  function Max(a: nat, b: nat): nat {
    if a >= b then a else b
  }

  /** Rule 3 fails: the word opens with two consonants that are not an allowed
      initial cluster, or with three consonants. */
  predicate BadInitialCluster(w: string)
    requires |w| >= 3
  {
    IsConsonant(w[0]) && IsConsonant(w[1]) &&
    (!AllowedInitialCluster(w[..2]) || IsConsonant(w[2]))
  }

  /** Rule 4 fails: the word ends in `й`, or in `ь` after a consonant. */
  predicate BadEnding(w: string)
    requires |w| >= 2
  {
    w[|w| - 1] == 'й' || (w[|w| - 1] == 'ь' && IsConsonant(w[|w| - 2]))
  }

  /** `is_phonotactically_plausible`, in the order the source applies its
      checks. */
  predicate IsPlausible(word: string)
  {
    var w := LowerStr(word);
    if |w| < 3 then true
    else if HasForbiddenCluster(w) then false
    else
      var scan := ScanRuns(w);
      if scan.maxConsonants > 3 || scan.maxVowels > 3 then false
      else if BadInitialCluster(w) then false
      else !BadEnding(w)
  }

  // ---------------------------------------------------------------------
  // An independent description of rule 2: runs of one class.

  /** Positions `a..b` of `w` all hold letters of class `k`. */
  predicate AllOfClass(w: string, k: LetterClass, a: int, b: int)
    requires 0 <= a <= b <= |w|
  {
    forall j :: a <= j < b ==> ClassOf(w[j]) == k
  }

  /** `w` contains `len` consecutive letters of class `k`. */
  ghost predicate HasRun(w: string, k: LetterClass, len: nat) {
    exists i :: RunAt(w, k, i, len)
  }

  /** Positions `i..i+len` of `w` all hold letters of class `k`. */
  predicate RunAt(w: string, k: LetterClass, i: int, len: nat) {
    0 <= i && i + len <= |w| && AllOfClass(w, k, i, i + len)
  }

  function Current(s: RunScan, k: LetterClass): nat
    requires k != Other
  {
    if k == Consonant then s.curConsonants else s.curVowels
  }

  function Longest(s: RunScan, k: LetterClass): nat
    requires k != Other
  {
    if k == Consonant then s.maxConsonants else s.maxVowels
  }

  /** The scan's current counter is exactly the length of the run of class
      `k` that ends the word. */
  lemma {:induction false} ScanCurrentIsFinalRun(w: string, k: LetterClass)
    requires k != Other
    ensures Current(ScanRuns(w), k) <= |w|
    ensures AllOfClass(w, k, |w| - Current(ScanRuns(w), k), |w|)
    ensures Current(ScanRuns(w), k) < |w| ==> ClassOf(w[|w| - 1 - Current(ScanRuns(w), k)]) != k
  {
    if |w| > 0 {
      var p := w[..|w| - 1];
      ScanCurrentIsFinalRun(p, k);
      ScanStep(w, k);
      var n := Current(ScanRuns(p), k);
      if ClassOf(w[|w| - 1]) == k {
        assert forall j :: |p| - n <= j < |p| ==> w[j] == p[j];
        if n < |p| {
          assert w[|p| - 1 - n] == p[|p| - 1 - n];
        }
      }
    }
  }

  /** One step of the scan: a letter of class `k` extends the current run of
      that class, anything else ends it. */
  lemma ScanStep(w: string, k: LetterClass)
    requires k != Other && |w| > 0
    ensures var s := ScanRuns(w[..|w| - 1]);
      Current(ScanRuns(w), k) == if ClassOf(w[|w| - 1]) == k then Current(s, k) + 1 else 0
    ensures var s := ScanRuns(w[..|w| - 1]);
      Longest(ScanRuns(w), k) == Max(Longest(s, k), Current(ScanRuns(w), k))
  {
  }

  /** A run of some length contains runs of every shorter length. */
  lemma ShorterRun(w: string, k: LetterClass, len: nat, shorter: nat)
    requires HasRun(w, k, len) && shorter <= len
    ensures HasRun(w, k, shorter)
  {
    var i :| RunAt(w, k, i, len);
    assert RunAt(w, k, i, shorter);
  }

  /** The scan's longest-run counter is exactly the length of the longest run
      of class `k` in the word. */
  lemma ScanLongestIsLongestRun(w: string, k: LetterClass)
    requires k != Other
    ensures HasRun(w, k, Longest(ScanRuns(w), k))
    ensures !HasRun(w, k, Longest(ScanRuns(w), k) + 1)
  {
    ScanLongestIsRun(w, k);
    ScanLongestIsMaximal(w, k);
  }

  /** The word has a run as long as the scan's longest-run counter. */
  lemma {:induction false} ScanLongestIsRun(w: string, k: LetterClass)
    requires k != Other
    ensures HasRun(w, k, Longest(ScanRuns(w), k))
  {
    if |w| == 0 {
      assert RunAt(w, k, 0, 0);
    } else {
      var p := w[..|w| - 1];
      ScanLongestIsRun(p, k);
      ScanCurrentIsFinalRun(w, k);
      ScanStep(w, k);
      var mp := Longest(ScanRuns(p), k);
      var cur := Current(ScanRuns(w), k);
      if mp >= cur {
        var i :| RunAt(p, k, i, mp);
        assert forall j :: i <= j < i + mp ==> w[j] == p[j];
        assert RunAt(w, k, i, mp);
      } else {
        assert RunAt(w, k, |w| - cur, cur);
      }
    }
  }

  /** The word has no run longer than the scan's longest-run counter. */
  lemma ScanLongestIsMaximal(w: string, k: LetterClass)
    requires k != Other
    ensures !HasRun(w, k, Longest(ScanRuns(w), k) + 1)
  {
    var m := Longest(ScanRuns(w), k);
    if HasRun(w, k, m + 1) {
      var i :| RunAt(w, k, i, m + 1);
      RunBoundedByLongest(w, k, i, m + 1);
    }
  }

  /** Every run of class `k` is at most as long as the scan's longest-run
      counter. */
  lemma {:induction false} RunBoundedByLongest(w: string, k: LetterClass, i: int, len: nat)
    requires k != Other && RunAt(w, k, i, len)
    ensures len <= Longest(ScanRuns(w), k)
  {
    if |w| > 0 {
      ScanStep(w, k);
      if i + len < |w| {
        RunInPrefix(w, k, i, len);
        RunBoundedByLongest(w[..|w| - 1], k, i, len);
      } else {
        FinalRunBound(w, k, i, len);
      }
    }
  }

  /** A run that stops before the last character is a run of the prefix. */
  lemma RunInPrefix(w: string, k: LetterClass, i: int, len: nat)
    requires |w| > 0 && RunAt(w, k, i, len) && i + len < |w|
    ensures RunAt(w[..|w| - 1], k, i, len)
  {
    assert forall j :: i <= j < i + len ==> w[..|w| - 1][j] == w[j];
  }

  /** A run that reaches the end of the word is no longer than the scan's
      current counter. */
  lemma FinalRunBound(w: string, k: LetterClass, i: int, len: nat)
    requires k != Other && RunAt(w, k, i, len) && i + len == |w|
    ensures len <= Current(ScanRuns(w), k)
  {
    ScanCurrentIsFinalRun(w, k);
  }

  /** Rule 2 of the scan fails exactly when the word holds four consecutive
      consonants or four consecutive vowels. */
  lemma ScanRejectsExactlyLongRuns(w: string)
    ensures ScanRuns(w).maxConsonants > 3 <==> HasRun(w, Consonant, 4)
    ensures ScanRuns(w).maxVowels > 3 <==> HasRun(w, Vowel, 4)
  {
    ScanLongestIsLongestRun(w, Consonant);
    ScanLongestIsLongestRun(w, Vowel);
    var mc := ScanRuns(w).maxConsonants;
    var mv := ScanRuns(w).maxVowels;
    if mc > 3 { ShorterRun(w, Consonant, mc, 4); }
    if HasRun(w, Consonant, 4) && mc <= 3 { ShorterRun(w, Consonant, 4, mc + 1); }
    if mv > 3 { ShorterRun(w, Vowel, mv, 4); }
    if HasRun(w, Vowel, 4) && mv <= 3 { ShorterRun(w, Vowel, 4, mv + 1); }
  }

  /** The four rules, stated declaratively on the lower-cased word: the word
      is plausible exactly when it is shorter than three characters, or it has
      no forbidden cluster, no run of four consonants or four vowels, an
      acceptable beginning and an acceptable ending. */
  lemma PlausibleIffRules(word: string)
    ensures IsPlausible(word) <==>
      var w := LowerStr(word);
      |w| < 3 ||
      (&& !HasForbiddenCluster(w)
       && !HasRun(w, Consonant, 4) && !HasRun(w, Vowel, 4)
       && !BadInitialCluster(w)
       && !BadEnding(w))
  {
    ScanRejectsExactlyLongRuns(LowerStr(word));
  }

  /** Words shorter than three characters are always accepted, whatever they
      contain. */
  lemma ShortWordsPlausible(word: string)
    requires |word| < 3
    ensures IsPlausible(word)
  {
  }

  /** A word of three or more characters whose lower case contains a
      forbidden cluster is rejected. */
  lemma ForbiddenClusterRejected(word: string, k: nat)
    requires |word| >= 3 && k < |ForbiddenClusters|
    requires Occurs(ForbiddenClusters[k], LowerStr(word))
    ensures !IsPlausible(word)
  {
  }

  /** Four consecutive consonants, or four consecutive vowels, reject a word. */
  lemma LongRunRejected(word: string, i: nat, k: LetterClass)
    requires k != Other && i + 4 <= |word|
    requires forall j :: i <= j < i + 4 ==> ClassOf(Lower(word[j])) == k
    ensures !IsPlausible(word)
  {
    var w := LowerStr(word);
    assert RunAt(w, k, i, 4);
    PlausibleIffRules(word);
  }

  /** A plausible word of three or more characters that starts with two
      consonants starts with an allowed cluster and has a vowel, sign or other
      character in third place. */
  lemma PlausibleInitialCluster(word: string)
    requires |word| >= 3 && IsPlausible(word)
    requires IsConsonant(Lower(word[0])) && IsConsonant(Lower(word[1]))
    ensures AllowedInitialCluster([Lower(word[0]), Lower(word[1])])
    ensures !IsConsonant(Lower(word[2]))
  {
    var w := LowerStr(word);
    assert w[..2] == [Lower(word[0]), Lower(word[1])];
  }

  /** A plausible word of three or more characters ends neither in `й` nor
      in `ь` after a consonant. */
  lemma PlausibleEnding(word: string)
    requires |word| >= 3 && IsPlausible(word)
    ensures Lower(word[|word| - 1]) != 'й'
    ensures Lower(word[|word| - 1]) == 'ь' ==> !IsConsonant(Lower(word[|word| - 2]))
  {
  }

  /** Two-letter words are accepted even when they are a forbidden cluster:
      the short-word shortcut comes before rule 1. */
  lemma ShortForbiddenClusterAccepted()
    ensures Occurs("тт", "тт") && IsPlausible("тт")
  {
    assert OccursAt("тт", "тт", 0);
  }

  /** A concrete run of four consonants (`вввр` in `аввврт`) is rejected. */
  lemma FourConsonantsRejected()
    ensures !IsPlausible("аввврт")
  {
    LongRunRejected("аввврт", 1, Consonant);
  }
}
