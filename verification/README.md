# Non-word generation, trial building and study tooling of iat-cursor-lex

This project is a Dafny model of the pure core of iat-cursor-lex, a word-association
experiment about images. A participant sees an image, then a word: the image's target word,
its antonym, one of thirty factor words, or a made-up non-word. The model covers:

- The Python non-word generator (`non_word_generator.py`). This is the phonotactic
  plausibility filter, the interior-letter replacement and same-class swap mutators, and the
  vowel-swap orchestrator `generate_non_word`.
- The TypeScript trial builder (`src/utils/trialGenerator.ts`). This covers the
  syllable-based `generateNonWord`, the per-image trial list `createTrialsForImage` and the
  session assembly `createSession`. The module also models the generic Fisher-Yates shuffle
  of `src/utils/arrayUtils.ts`.
- The two maintenance scripts `scripts/fixImagePairs.mjs` and `scripts/checkMissingPairs.mjs`.
  They share a hand-written quoted-CSV reader and prompt normalisation. They also share the
  prompt/model index of the sample table and the search for a file's partner: the file with
  the same prompt and another model. On top of that, the first script pairs the remaining
  files by hand through word-overlap similarity. The second script reports the files that are
  still unpaired and the defects of the hand-made pairs.
- The tab-separated image table reader of `src/utils/dataLoader.ts`.
- The nickname mask and the clock rendering of `src/components/auth/NicknameForm.tsx`.
- The ordering, ranks, visible rows and clock of `src/components/leaderboard/Leaderboard.tsx`.
- The PIN gate, the factor-word labels and the CSV rows of
  `src/components/admin/DataExport.tsx`.

Randomness is an explicit oracle. Each randomised step reads a draw: a natural number that
selects the option at that index of the range the source draws from. A number past the end
selects the first option, and a missing draw reads as zero. So every choice the source can
make is some draw, and every property holds for every draw. Bounded attempt loops are
recursion on an attempt counter. JavaScript loops over a list are recursion on a prefix
length, with a step lemma for each pass. JavaScript `Math.floor` of a quotient by a positive
constant is Dafny's `/`. JavaScript's `%` is written out (`NicknameForm.JsRem`), because the
remainder takes the sign of the dividend.

Modules, one file each:

- shared: `Wrappers` (Option/Result), `Strings` (the JavaScript string primitives used),
  `Sequences`, `Types`;
- the Python generator: `Alphabet`, `Plausibility`, `Mutation`, `Generator`;
- the trial builder: `Shuffling`, `TrialGenerator`;
- the scripts: `Csv`, `Prompts`, `Similarity`, `ImageIndex`, `ManualPairs`, `PairCheck`;
- the components: `DataLoader`, `NicknameForm`, `Leaderboard`, `DataExport`.

## Model

| member | source | states |
|---|---|---|
| Alphabet.ClassesListed | non_word_generator.py:5-10 | a character is a vowel (consonant) exactly when it is one of the letters of `VOWELS_RU` (`CONSONANTS_RU`) |
| Alphabet.ClassesDisjoint | non_word_generator.py:5-6 | no letter is both a vowel and a consonant |
| Alphabet.LetterCaseRoundTrip | non_word_generator.py:218-219 | every letter of the alphabet is lower case, and its upper-case form counts as upper case and lowers back to it, so restoring the case of a replacement keeps its class |
| Alphabet.LowerStr | non_word_generator.py:120 | lower-casing a word lower-cases each character in place, on the Cyrillic block U+0400–U+045F and Latin `A`–`Z`, and so keeps its length |
| Plausibility.ShortWordsPlausible | non_word_generator.py:120-123 | every word shorter than three characters is plausible, whatever it contains |
| Plausibility.ShortForbiddenClusterAccepted | non_word_generator.py:122-128 | the two-letter forbidden cluster `тт` is itself accepted, because the length shortcut comes first |
| Plausibility.ForbiddenClusterRejected | non_word_generator.py:126-128 | a word of three or more characters whose lower case contains any forbidden cluster is rejected |
| Plausibility.ScanStep | non_word_generator.py:135-147 | one scan step: a letter of the class extends that class's current run, any other character, including a sign, resets it; the longest counter is the maximum of the old longest and the new current |
| Plausibility.ScanCurrentIsFinalRun | non_word_generator.py:131-147 | the scan's current counter is exactly the length of the run of that class ending the word |
| Plausibility.ScanLongestIsLongestRun | non_word_generator.py:131-149 | the scan's longest counter is the length of a run of that class in the word, and no longer run exists |
| Plausibility.RunBoundedByLongest | non_word_generator.py:131-149 | every run of one class is at most as long as the scan's longest counter |
| Plausibility.ScanRejectsExactlyLongRuns | non_word_generator.py:148-153 | the run check fails exactly when the word holds four consecutive consonants or four consecutive vowels |
| Plausibility.LongRunRejected | non_word_generator.py:131-153 | four consecutive letters of one class anywhere in a word reject it |
| Plausibility.FourConsonantsRejected | non_word_generator.py:148-150 | the word `аввврт`, with the four-consonant run `вввр`, is rejected |
| Plausibility.PlausibleIffRules | non_word_generator.py:119-181 | a word is plausible exactly when it is shorter than three characters or it has no forbidden cluster, no run of four consonants or vowels, an acceptable beginning and an acceptable ending |
| Plausibility.PlausibleInitialCluster | non_word_generator.py:156-166 | a plausible word opening with two consonants opens with an allowed two-consonant cluster and has no consonant in third place |
| Plausibility.PlausibleEnding | non_word_generator.py:173-178 | a plausible word does not end in `й`, nor in `ь` after a consonant |
| Sequences.WithoutMembers | non_word_generator.py:211 | filtering one value out of a list keeps exactly the elements different from it |
| Sequences.WithoutShorter | non_word_generator.py:303-304 | filtering out a value that occurs makes the list shorter |
| Mutation.PickReplacement | non_word_generator.py:203-216 | a replacement letter exists only for a vowel or a consonant, and it is a different letter of the same class |
| Mutation.ReplaceChoice | non_word_generator.py:196 | the position an attempt replaces is interior, between 1 and n-2 |
| Mutation.ReplacedIsReplacement | non_word_generator.py:216-223 | writing a different same-class letter in the old letter's case at an interior position changes exactly that position, to a different letter of the same class and the same case |
| Mutation.ReplaceCandidate | non_word_generator.py:196-223 | each attempt's candidate is a replacement of one interior letter |
| Mutation.ReplaceFrom | non_word_generator.py:193-230 | any result of the remaining attempts is a replacement of one interior letter that passes the acceptance gate |
| Mutation.ReplaceLetter | non_word_generator.py:183-233 | no result for words shorter than four characters; any result changes one interior letter to a different same-class letter in the same case, keeps the first and last characters, differs from the word ignoring case, is not a real word and is plausible |
| Mutation.ReplaceReachable | non_word_generator.py:193-230 | every acceptable replacement of an interior letter is the outcome of some draw |
| Mutation.SwapPool | non_word_generator.py:249-258 | a position is in a swap pool exactly when it is interior, holds a letter of the pool's class and is not the protected `н`/`в` of a word ending in `но`/`во` |
| Mutation.ChooseClass | non_word_generator.py:266-297 | forced consonants swap only consonants and forced vowels only vowels; a chosen pool has two positions; without a force flag some pool is chosen whenever one qualifies |
| Mutation.SwapChoice | non_word_generator.py:302-312 | the two drawn positions are distinct members of the pool, with a vowel strictly between them when they are consonants |
| Mutation.SwapCandidate | non_word_generator.py:262-317 | each attempt's candidate exchanges two distinct interior positions of one class, respecting the protected index, the force flags and the vowel-between rule |
| Mutation.SwapFrom | non_word_generator.py:261-323 | any result of the remaining attempts is such an exchange and passes the acceptance gate |
| Mutation.SwapLetters | non_word_generator.py:235-328 | no result for words shorter than five characters; any result is an allowed same-class exchange of two interior positions and passes the acceptance gate |
| Sequences.SwapSymmetric | non_word_generator.py:316 | exchanging positions `i`, `j` is the same as exchanging `j`, `i` |
| Sequences.SwapMultiset | non_word_generator.py:316 | exchanging two characters keeps the multiset of characters |
| Mutation.SwapKeepsEndsAndLetters | non_word_generator.py:249-317 | a swap result keeps the length, the first and last characters and the multiset of characters |
| Mutation.VowelSwapReachable | non_word_generator.py:261-323 | every acceptable vowel swap of a word of five or more letters is the outcome of some draw |
| Generator.RealWordsMembers | non_word_generator.py:338-339 | the real-word set holds exactly the lower-cased words of both lists |
| Generator.FallbackRound | non_word_generator.py:353-361 | a fallback round yields only an acceptable vowel swap of a pool word that differs from the base word ignoring case |
| Generator.FallbackFrom | non_word_generator.py:350-363 | any result of the fallback is an acceptable vowel swap of a pool word that differs from the base word ignoring case |
| Generator.FallbackStep | non_word_generator.py:352-362 | the fallback returns the first successful round and otherwise goes on to the next one |
| Generator.FallbackBounded | non_word_generator.py:350-352 | the fallback reads only its first five rounds: draws beyond them never change the outcome |
| Generator.GenerateNonWord | non_word_generator.py:333-368 | the outcome is the failure sentinel, an acceptable vowel swap of the base word, or an acceptable vowel swap of an external word that differs from the base word ignoring case |
| Generator.ResultIsNotRealWord | non_word_generator.py:338-346 | an outcome other than the sentinel is, ignoring case, no word of either list |
| Generator.ShortWordsFail | non_word_generator.py:243-244 | when the base word and every external word are shorter than five characters the outcome is the sentinel |
| Generator.BaseSwapWins | non_word_generator.py:344-346 | a successful vowel swap of the base word is the outcome |
| Generator.BaseSwapReachable | non_word_generator.py:344-346 | every acceptable vowel swap of the base word is the outcome of some draw |
| Shuffling.Partner | src/utils/arrayUtils.ts:9 | the partner drawn for position `i` is at most `i`, and it is the draw itself whenever the draw is in range |
| Shuffling.ShufflePermutes | src/utils/arrayUtils.ts:6-13 | the shuffled list is a permutation of the input: the same multiset of elements |
| Shuffling.ShuffleLoop | src/utils/arrayUtils.ts:6-13 | the downward `for` loop with its swaps computes the shuffle and keeps the multiset of elements |
| Shuffling.ShuffleFromKeepsTail | src/utils/arrayUtils.ts:8-10 | positions above the loop counter are settled: later swaps never touch them |
| Shuffling.LastPickReachable | src/utils/arrayUtils.ts:8-10 | any element can end up last: a first draw of `m` puts element `m` in the last place |
| TrialGenerator.LongWordsMembers | src/utils/trialGenerator.ts:135-137 | the long-word pool holds exactly the factor words of five or more characters |
| TrialGenerator.FactorWordsFacts | src/utils/trialGenerator.ts:4-44 | there are thirty factor words and at least one of them has five or more characters, so the long-word pool is never empty |
| TrialGenerator.MatchAt | src/utils/trialGenerator.ts:145 | a match of the syllable pattern at a position ends after it and covers a run of consonants followed by a non-empty run of vowels |
| TrialGenerator.MatchAtMeaning | src/utils/trialGenerator.ts:145 | a match starts at a position exactly when some piece of the word from there is a syllable, and the match is the longest such piece, as the greedy pattern takes it |
| TrialGenerator.SyllableAt | src/utils/trialGenerator.ts:145 | a syllable at a position begins with the whole consonant run there, continues with a vowel, and ends inside the vowel run that follows |
| TrialGenerator.Syllables | src/utils/trialGenerator.ts:145 | the syllable list is never empty; it is the word itself when the pattern never matches, and otherwise every piece is a syllable |
| TrialGenerator.SyllablesExample | src/utils/trialGenerator.ts:145 | `красота` splits into `кра`, `со`, `та` |
| TrialGenerator.TrailingConsonantDropped | src/utils/trialGenerator.ts:145 | the matches drop a trailing consonant: the syllables of `кот` rejoin as `ко` |
| TrialGenerator.FirstOfClass | src/utils/trialGenerator.ts:166-176 | the first match of the letter class is a letter of that class with none before it, and there is no match exactly when no letter of the class occurs |
| TrialGenerator.ReplaceFirstOfClass | src/utils/trialGenerator.ts:166-176 | replacing the first occurrence of the matched letter rewrites exactly the position of the first letter of the class |
| TrialGenerator.ModifySyllableChangesFirst | src/utils/trialGenerator.ts:163-178 | modifying a syllable keeps its length and changes no position except the first letter of the coin's class |
| TrialGenerator.MutateMiddle | src/utils/trialGenerator.ts:149-157 | a word with no interior syllable keeps its length and every character except the middle one |
| TrialGenerator.ChooseSyllable | src/utils/trialGenerator.ts:148-159 | the syllable picked is interior, never the first or last, and every interior syllable is some draw's pick |
| TrialGenerator.AttemptWord | src/utils/trialGenerator.ts:133-139 | the word an attempt mutates has five or more characters: the input when it is long enough, otherwise a word of the long-word pool |
| TrialGenerator.GenerateNonWord | src/utils/trialGenerator.ts:127-190 | past ten attempts the result is the word followed by `ость`; otherwise the result has at least five characters |
| TrialGenerator.GenerateNonWordStep | src/utils/trialGenerator.ts:184-189 | an attempt whose result is shorter than five characters retries with the attempted word and one more attempt; a longer result is returned |
| TrialGenerator.GenerateNonWordBounded | src/utils/trialGenerator.ts:129-131 | the recursion reads at most eleven attempts' draws: draws beyond them never change the result |
| TrialGenerator.FewSyllablesMutateMiddle | src/utils/trialGenerator.ts:148-157 | a word of five or more characters with at most two syllables comes back with only its middle character changed |
| TrialGenerator.Sources | src/utils/trialGenerator.ts:220 | the words non-words are made from are the target, the antonym and the factor words, in that order |
| TrialGenerator.CollectNonWords | src/utils/trialGenerator.ts:221-234 | when the loop completes it holds twenty non-words: the ones found so far first, each new one of five or more characters, none a source word, and no two equal |
| TrialGenerator.CollectNonWordsBounded | src/utils/trialGenerator.ts:223-234 | once the loop completes, further rounds of draws never change its result |
| TrialGenerator.CreateTrialsForImage | src/utils/trialGenerator.ts:193-237 | an image's trial list has two plus the number of factor words plus twenty trials |
| TrialGenerator.TrialLayout | src/utils/trialGenerator.ts:196-217 | every trial is for the image; the first is its target, the second its antonym, then each factor word in order |
| TrialGenerator.NonWordLayout | src/utils/trialGenerator.ts:219-234 | the trials after the factor words are non-word trials, of five or more characters, none a source word and pairwise distinct |
| TrialGenerator.OneTargetOneAntonym | src/utils/trialGenerator.ts:196-234 | exactly one trial of the image is the target trial, at position 0, and exactly one is the antonym trial, at position 1 |
| TrialGenerator.UncompletedMembers | src/utils/trialGenerator.ts:270 | the filtered images are exactly the images whose id is not completed |
| TrialGenerator.Availability | src/utils/trialGenerator.ts:263-271 | when the completed set is at least as large as the image list, all images are available and the set is cleared; otherwise the set is kept and the available images are those not completed |
| TrialGenerator.ResetExactlyWhenAllCompleted | src/utils/trialGenerator.ts:265 | for distinct image ids and completed ids among them, the size test resets exactly when every image is completed |
| TrialGenerator.StaleIdStartsNewRound | src/utils/trialGenerator.ts:265-270 | a completed id that names no image counts toward the size test: with images `a`, `b` and completed `a`, `x`, the set is cleared and `b` is not served alone |
| TrialGenerator.FlatMap | src/utils/trialGenerator.ts:289 | the concatenation of the per-image lists exists exactly when every image's list does |
| TrialGenerator.TrialsForImages | src/utils/trialGenerator.ts:289 | every trial of the concatenation belongs to one of the session images |
| TrialGenerator.TrialsForContains | src/utils/trialGenerator.ts:289 | every session image's trial list is contained, as a multiset, in the concatenation |
| TrialGenerator.TrialsForLength | src/utils/trialGenerator.ts:289 | the concatenation has the per-image trial count times the number of session images |
| TrialGenerator.CreateSession | src/utils/trialGenerator.ts:250-303 | the completed set is cleared exactly when it is at least as large as the image list; the outcome is `null` exactly when fewer images are available than a session needs; a session starts at trial 0, not completed |
| TrialGenerator.SessionImages | src/utils/trialGenerator.ts:285 | a session takes exactly the number of images it needs |
| TrialGenerator.SessionImagesPicked | src/utils/trialGenerator.ts:285 | the session images are distinct picks from the available images (multiset containment) |
| TrialGenerator.SessionIsPermutation | src/utils/trialGenerator.ts:289-299 | the session's trials are a permutation of the session images' trials |
| TrialGenerator.SessionAvoidsCompleted | src/utils/trialGenerator.ts:263-299 | every trial of a session is for an image of the list, and, unless the round was reset, for one not completed |
| Csv.EndRow | scripts/fixImagePairs.mjs:34-39 | a row terminator finishes the pending row only when it holds a cell or text, so an empty line yields no row, and a finished row is never the single empty cell |
| Csv.Step | scripts/fixImagePairs.mjs:16-43 | each step of the reader advances and either keeps the finished rows or finishes the pending row |
| Csv.CrlfIsOneTerminator | scripts/fixImagePairs.mjs:29-32 | outside quotes, CRLF reads exactly as one LF |
| Csv.EmptyLineSkipped | scripts/fixImagePairs.mjs:34 | a line break with nothing pending changes nothing |
| Csv.QuotedSeparatorKept | scripts/fixImagePairs.mjs:26-42 | inside quotes, a comma, LF or CR is cell text |
| Csv.ParseCsvRoundTrip | scripts/fixImagePairs.mjs:10-51 | with doubled quotes read as escapes only inside quotes, the reader gives back any table of quoted cells written one row per line, except rows it never emits (no cell, or one empty cell) |
| Csv.ParseCsvAsWrittenRoundTrip | scripts/fixImagePairs.mjs:10-51 | the reader as written gives back a table of quoted cells when no cell is empty or starts with a quote |
| Csv.EmptyQuotedCellMisread | scripts/fixImagePairs.mjs:19-25 | the reader as written reads the row `"a","","b"` as `a`, a single quote, `b`; the corrected reader reads `a`, the empty cell, `b` |
| Csv.DialectsAgree | scripts/fixImagePairs.mjs:19-25 | on text with no two adjacent quotes, the reader as written and the corrected reader agree |
| Prompts.NormalizeNormal | scripts/fixImagePairs.mjs:54-56 | a normalised prompt has no leading or trailing space and no whitespace but single spaces; it is empty exactly when the prompt is all whitespace |
| Prompts.NormalFixed | scripts/fixImagePairs.mjs:54-56 | a prompt already in normal form is unchanged by normalisation |
| Prompts.NormalizeIdempotent | scripts/fixImagePairs.mjs:54-56 | normalising twice is normalising once |
| Prompts.NormalizeKeepsVisible | scripts/fixImagePairs.mjs:54-56 | normalisation keeps every non-whitespace character, in order |
| Strings.TrimSpec | scripts/fixImagePairs.mjs:92-94 | `trim` removes exactly the leading and trailing whitespace and keeps the rest of the text in place |
| Strings.TrimIdempotent | scripts/fixImagePairs.mjs:115-116 | trimming twice is trimming once |
| Similarity.WordsOfNormal | scripts/fixImagePairs.mjs:67-68 | on a normalised prompt, splitting the lower case at whitespace runs is splitting at single spaces |
| Similarity.CommonCountBounds | scripts/fixImagePairs.mjs:70 | the common-word count equals the first list's length exactly when all its words occur in the second list, and is zero exactly when none does |
| Similarity.Score | scripts/fixImagePairs.mjs:71 | the similarity lies between 0 and 1 |
| Similarity.ScoreAboveHalf | scripts/fixImagePairs.mjs:205 | the similarity exceeds one half exactly when twice the common-word count exceeds the longer word list |
| Similarity.ScoreZero | scripts/fixImagePairs.mjs:71 | the similarity is zero exactly when no word is shared |
| Similarity.MostSimilarMeaning | scripts/fixImagePairs.mjs:59-80 | no prompt other than the target scores above the result; no prompt is chosen exactly when every other prompt scores zero; a chosen prompt scores above zero and is the first to reach its score |
| Similarity.MostSimilarFromIn | scripts/fixImagePairs.mjs:63-76 | a chosen prompt is one of the candidates and differs from the target |
| ImageIndex.Put | scripts/fixImagePairs.mjs:119-120 | assigning a key of a plain object sets its value and appends the key to the key order only when it is new |
| ImageIndex.FindColumnFrom | scripts/fixImagePairs.mjs:92-94 | the column found is the first whose trimmed header is the name; none is found exactly when no header matches |
| ImageIndex.ReadColumns | scripts/fixImagePairs.mjs:91-99 | the three columns are found exactly when the header row names `prompt`, `model_name` and `file_name` |
| ImageIndex.AddRow | scripts/fixImagePairs.mjs:107-127 | a row too short or with an empty prompt, model or file name changes nothing; otherwise the file gets the prompt and the model and is appended to the prompt's file list |
| ImageIndex.IndexRowsConsistent | scripts/fixImagePairs.mjs:107-127 | the index stays consistent: every file with a prompt is listed under it, every listed file has a prompt and a model |
| ImageIndex.IndexedFiles | scripts/fixImagePairs.mjs:107-127 | a file is indexed exactly when some usable row names it |
| ImageIndex.LastRowWins | scripts/fixImagePairs.mjs:119-120 | a file's prompt and model are those of the last usable row that names it |
| ImageIndex.FirstPartnerMeaning | scripts/fixImagePairs.mjs:176-178 | the partner found is the first listed file that is neither the file nor of its model; none exactly when no such file is listed |
| ImageIndex.AssociatedMeaning | scripts/fixImagePairs.mjs:170-185 | an associated file has the same prompt, another name and another model; there is none exactly when every file of the prompt is the file itself or of the same model |
| ManualPairs.ClassifyMeaning | scripts/fixImagePairs.mjs:167-185 | the files with an associated file are exactly the indexed files that have one, each mapped to it; the files without pairs are exactly the others, each listed once |
| ManualPairs.AllPromptsMeaning | scripts/fixImagePairs.mjs:192 | the prompt list holds exactly the prompts of the indexed files |
| Sequences.DedupMeaning | scripts/fixImagePairs.mjs:192 | removing duplicates keeps exactly the elements of the list, each once |
| ManualPairs.OtherModelMeaning | scripts/fixImagePairs.mjs:207-209 | the candidates are exactly the files of the similar prompt whose model differs, and the match taken is the first of them |
| ManualPairs.AddManualPair | scripts/fixImagePairs.mjs:212-214 | a hand-made pair links the file to its match and the match back to the file, and changes no other entry |
| ManualPairs.LaterPairOverwrites | scripts/fixImagePairs.mjs:212-214 | a later pair with the same match overwrites the back link: after `a`–`b` and `c`–`b`, `a` still points to `b` but `b` points to `c` |
| ManualPairs.PairAllByHandLinks | scripts/fixImagePairs.mjs:196-222 | every link the hand pairing makes joins two indexed files of different models |
| ManualPairs.SimilarPromptListed | scripts/fixImagePairs.mjs:203-207 | the most similar prompt is always one under which files are listed, so the lookup of its files never fails |
| ManualPairs.KnownPairsMutual | scripts/fixImagePairs.mjs:225-238 | every known pair is listed in both directions |
| ManualPairs.FinalPairs | scripts/fixImagePairs.mjs:241 | the merged pairs hold the keys of both maps, the known pairs winning over the hand-made ones |
| ManualPairs.FixImagePairsMeaning | scripts/fixImagePairs.mjs:82-246 | the script stops exactly when a needed column is missing; otherwise every merged entry outside the known pairs joins two indexed files of different models |
| ManualPairs.FixKeepsKnown | scripts/fixImagePairs.mjs:241 | every known pair is saved as it is, whatever the table holds |
| PairCheck.FindAssociatedAgrees | scripts/checkMissingPairs.mjs:119-136 | the partner of a file is its hand-made pair when it has a non-empty one, and otherwise its associated file |
| PairCheck.Preview | scripts/checkMissingPairs.mjs:146 | the preview is the first fifty characters of the prompt, or all of a shorter one, followed by `...` |
| PairCheck.MissingMeaning | scripts/checkMissingPairs.mjs:139-149 | a file is reported missing exactly when it is indexed, has no non-empty hand-made pair and no associated file; each entry carries the file's model and prompt preview |
| PairCheck.MissingUnpaired | scripts/checkMissingPairs.mjs:139-149 | every missing file is one the pairing script found without an associated file, and it has no hand-made pair |
| PairCheck.MissingOutsideKnown | scripts/checkMissingPairs.mjs:139-149 | when the hand-made pairs include every known pair, no file of a known pair is reported missing |
| PairCheck.StrLtTrichotomy | scripts/checkMissingPairs.mjs:169 | the string order of `sort` is a strict total order |
| PairCheck.PairKeySymmetric | scripts/checkMissingPairs.mjs:169 | the pair key does not depend on the order of the two files |
| PairCheck.PairKeyInjective | scripts/checkMissingPairs.mjs:169 | for names without `\|`, equal pair keys mean the same two files |
| PairCheck.PairKeyCollision | scripts/checkMissingPairs.mjs:169 | names containing `\|` can collide: the pairs `a\|b`–`c` and `a`–`b\|c` share the key `a\|b\|c` |
| PairCheck.ReportMeaning | scripts/checkMissingPairs.mjs:175-207 | a pair is flagged not mutual, unknown, same-model or with differing prompts exactly under the conditions the script tests |
| PairCheck.PairReported | scripts/checkMissingPairs.mjs:165-173 | every hand-made pair's key is reported, and no key is reported twice |
| PairCheck.MutualPairsAgree | scripts/checkMissingPairs.mjs:178 | when every hand-made link is returned by its partner, no pair is flagged not mutual |
| PairCheck.EmptyIndexReports | scripts/checkMissingPairs.mjs:183-188 | against an empty index every checked pair is flagged unknown on both sides |
| PairCheck.MissingColumnMeaning | scripts/checkMissingPairs.mjs:70-100 | without the needed columns the script does not stop: it fails exactly when some data row is longer than the largest of the three column indexes (a missing one counting as -1), on the missing cell, and otherwise reports no missing file and every pair unknown |
| PairCheck.MissingAfterFix | scripts/checkMissingPairs.mjs:139-149 | checking the pairs the pairing script wrote reports only files it left without an associated file, without a hand-made pair and outside the known pairs |
| DataLoader.MissingFromMeaning | src/utils/dataLoader.ts:14 | the missing columns are exactly the required ones the header lacks, and there are none exactly when every required column is present |
| DataLoader.LoadFailsOnMissingColumn | src/utils/dataLoader.ts:9-18 | loading fails exactly when the header lacks `png`, `target` or `antonym`, and the error names exactly the missing ones |
| DataLoader.Records | src/utils/dataLoader.ts:21-33 | there is one record per line after the header, each read from its own line |
| DataLoader.LoadRecords | src/utils/dataLoader.ts:21-33 | record `i` has the id `img_` followed by `i + 1`, the first three tab-separated fields as file name, target and antonym, the url `/images/` followed by the file name, and an empty model |
| DataLoader.LoadIdsDistinct | src/utils/dataLoader.ts:26 | no two records share an id |
| DataLoader.LoadFormatted | src/utils/dataLoader.ts:9-33 | a table written with the three required columns, fields without tabs or line breaks and no trailing whitespace loads back: one record per row, with that row's file name, target and antonym |
| DataLoader.WindowsLineEndsRejected | src/utils/dataLoader.ts:9-18 | a header ending in CRLF fails: the CR stays in the last header name, so `antonym` is reported missing |
| NicknameForm.MaskShape | src/components/auth/NicknameForm.tsx:8-12 | a mask keeps the length; a nickname of at most three characters is shown whole; a longer one shows its first two and last character and asterisks between |
| NicknameForm.SameMask | src/components/auth/NicknameForm.tsx:8-12 | two nicknames look the same exactly when they are equal and short, or long, of one length, and agree on the first two and the last character |
| NicknameForm.MaskIdempotent | src/components/auth/NicknameForm.tsx:8-12 | masking a mask changes nothing |
| NicknameForm.JsRem | src/components/auth/NicknameForm.tsx:74 | the remainder has the sign of the dividend and is smaller than the divisor in size |
| NicknameForm.FormatTimeMeaning | src/components/auth/NicknameForm.tsx:71-76 | for a time that is not negative, the clock shows whole minutes and the seconds below sixty left over, together every whole second of the time |
| NicknameForm.ClockRoundTrip | src/components/auth/NicknameForm.tsx:75 | a clock of minutes and seconds below sixty reads back as the same minutes and seconds |
| Leaderboard.SortByScoreMeaning | src/components/leaderboard/Leaderboard.tsx:42-43 | the sorted table is in descending score and is a permutation of the delivered rows |
| Leaderboard.SortByScoreStable | src/components/leaderboard/Leaderboard.tsx:42-43 | rows of equal score keep their delivered order |
| Leaderboard.BoardMeaning | src/components/leaderboard/Leaderboard.tsx:42-47 | every row's rank is its position counted from one, ranks follow descending score, and the rows are the delivered ones |
| Leaderboard.FindByNicknameMeaning | src/components/leaderboard/Leaderboard.tsx:77-79 | a row is found exactly when some row has the nickname, and it is the first such row |
| Leaderboard.DisplayedMeaning | src/components/leaderboard/Leaderboard.tsx:76-87 | the participant is in the first five exactly when their first row is; the collapsed view shows the first five rows and the participant's row, at most six rows of the table; the expand button appears exactly when rows are hidden |
| Leaderboard.DisplayedExpanded | src/components/leaderboard/Leaderboard.tsx:83-84 | the expanded view is the whole table |
| Leaderboard.ShowsPositionMeaning | src/components/leaderboard/Leaderboard.tsx:95 | the position banner is shown exactly when the collapsed view appends the participant's row after the first five, and that row is the participant's |
| Leaderboard.FormatTimesAgree | src/components/leaderboard/Leaderboard.tsx:162-167 | for a time that is not negative, the leaderboard's clock and the nickname form's clock agree |
| Leaderboard.FormatTimesDifferBelowZero | src/components/leaderboard/Leaderboard.tsx:162-167 | for the negative time -59999 ms the two clocks differ (`-1:00` and `-1:-60`) |
| DataExport.TranslateFactorMeaning | src/components/admin/DataExport.tsx:24-28 | a factor key is translated exactly when it is one of the five known keys, and it becomes one of the five Russian factor names |
| DataExport.TranslateConnotationMeaning | src/components/admin/DataExport.tsx:29-30 | a connotation is translated exactly when it is a known key; it reads `положительное` exactly for `positive` and `high` (or that label itself), and `отрицательное` for `negative` and `low` |
| DataExport.InfoOfJoined | src/components/admin/DataExport.tsx:22-30 | a category written as factor key, `_`, connotation key gets the labels of the two keys |
| DataExport.FactorMapKeys | src/components/admin/DataExport.tsx:21-33 | the word map holds exactly the words of the list |
| DataExport.FactorMapValues | src/components/admin/DataExport.tsx:21-33 | each word maps to the labels of the category of its last occurrence in the list |
| DataExport.FactorMapValueAt | src/components/admin/DataExport.tsx:21-33 | the text of a word's last occurrence is a key of the map, and later words with other texts leave its labels alone |
| DataExport.SourceMapKnown | src/components/admin/DataExport.tsx:21-33 | built from the thirty factor words, the map holds exactly their words, each with a known factor name and one of the two connotation labels |
| DataExport.ClassifyDecodes | src/components/admin/DataExport.tsx:62-83 | with known labels in the map, a row's labels give back its word type, except that an unmapped factor word and any other type both read as unknown |
| DataExport.HandleExportMeaning | src/components/admin/DataExport.tsx:42-96 | the file is produced exactly when the PIN is `1921`; it is then the header line followed by one row per trial, in order, whenever no nickname, file name or word holds a line break (the labels of the factor map never do) |
| DataExport.RowRoundTrip | src/components/admin/DataExport.tsx:85-93 | when no text field or label holds a comma, a row splits back into its seven fields, the last telling whether the answer was right |
| DataExport.CsvLines | src/components/admin/DataExport.tsx:57-96 | when no field or label holds a line break, the file splits into the header line followed by one row per trial, in order |

## Left out

- Random number generation itself: every random choice is a draw parameter (see above).
- File, network and database I/O: `fs` reads and writes, `fetch`, Firebase queries, the
  JSON file the pairing script writes, and the Blob download of the export. Texts and tables
  are parameters, results are return values.
- Console output, `process.exit` and the `try`/`catch` wrappers. A script that stops is an
  absent result (`None`).
- React state and rendering: dialogs, loading and error states, highlighting, `toFixed` of
  the accuracy and the score.
- Debug printing (`debug=True` paths) and the demo driver of `non_word_generator.py`.
- The example word lists of `non_word_generator.py`; both lists are parameters.
- Generator.GenerateNonWord: the source tests the swap result for truth; a swap result has five or more characters, so the model tests only that a result exists.
- TrialGenerator.CreateSession: the participant id is only logged, so it is not a parameter. The `while` loop of `createTrialsForImage` runs until twenty non-words are found; the model takes a finite list of rounds and reports `DrawsExhausted` when they run out first.
- TrialGenerator.FactorWordsFacts: the thirty factor words are written out, but only their count and the existence of a long word are proved; `DataExport.SourceMapKnown` covers their categories.
- Letter case in `trialGenerator.ts`: `toLowerCase` of the middle character is modelled on the Russian alphabet only.
- Alphabet.LowerStr: Python's `str.lower`, `str.upper` and `str.isupper` (`Alphabet.Lower`, `Alphabet.Upper`, `Alphabet.IsUpper`) are modelled on the Cyrillic block U+0400–U+045F and Latin `A`–`Z` only. Other capitals (`É`) keep their case, and lower cases longer than one character (`İ` gives two) are not modelled, so the kept length is a promise of the model only. The generator's words are Russian, where the two agree.
- Similarity.Words: JavaScript's `toLowerCase` is modelled through `Alphabet.Lower`, so on the same blocks only; a prompt whose capitals lie outside them (`Café` against `café`) splits into words that the script would count as equal and the model does not.
- Text is a sequence of characters; JavaScript strings are UTF-16, so lengths and `substring` of text outside the Basic Multilingual Plane differ.
- `Object.keys` lists integer-like keys in numeric order before the others; the model keeps insertion order, which the image file names (`17.png`) follow.
- The debug loop over `problemFiles`, the statistics of two named models and the pair counts are log output only.
- Scores and accuracy are reals; `NaN`, infinities and missing scores are not modelled.
- Leaderboard.FormatTime and NicknameForm.FormatTime: times are whole milliseconds; fractional times are not modelled.
- DataExport.HandleExport: the trials are taken as already sorted; the `localeCompare` order of file names is locale-dependent and is not modelled.
- DataLoader.RecordOf: a line with fewer than three tab-separated fields gives `undefined` for the missing ones in the source; the model reads them as the empty string.
- DataExport.InfoOf: a category without `_` gives the connotation `undefined`, which the model writes as the empty string.
- DataExport.TrialRecord: fields missing from a stored trial are not modelled; `participantId` and `timestamp` are not exported.
- Sequences.DedupMeaning: the order of the deduplicated prompts (first occurrence) is not stated, only their set and that each occurs once.
- ManualPairs.FixImagePairs: the script reads its table with the CSV reader of the Findings table as written; the model reads it with the corrected `Csv.ParseCsv`. On a table with an empty quoted cell (`"",m,f.png`) the script indexes `f.png` under the prompt `"`, while the model skips the row because its prompt is empty. On tables without two adjacent quotes the readers agree (`Csv.DialectsAgree`).
- PairCheck.CheckMissingPairs: the same reader difference as for `ManualPairs.FixImagePairs`.
- ManualPairs.FixImagePairsMeaning: object lookups (`ImageIndex.Get`) see only the keys the script stores, not those a plain object inherits from `Object.prototype`. A normalised prompt such as `constructor` finds the inherited `Object` function in the source, whose `push` throws, so the script stops; the model goes on. The iff "stops exactly when a column is missing" holds only for prompts that are not inherited keys.
- PairCheck.MissingMeaning: for the same reason a file named after an inherited key (`toString`) has a truthy hand-made pair in the source and is never reported missing, while the model may report it.
- DataExport.ClassifyDecodes: `DataExport.Classify` looks up a factor word among the map's own keys only; a factor word such as `constructor` finds an inherited function in the source and exports empty factor and connotation fields, where the model writes `неизвестно`.
- PairCheck.PairReported: coverage is stated by pair key; with names containing `|` two pairs can share a key, and only one of them is reported (`PairCheck.PairKeyCollision`).

## Findings

| source | as written | input that shows it | evidently intended | confidence | as-written member | corrected member |
|---|---|---|---|---|---|---|
| scripts/fixImagePairs.mjs:19-25 | two adjacent quotes are read as one escaped quote even outside quotes (the same reader is repeated in scripts/checkMissingPairs.mjs) | the row `"a","","b"` reads as `a`, `"`, `b` | an empty quoted cell, `a`, empty, `b` | not executed | Csv.EmptyQuotedCellMisread | Csv.ParseCsvRoundTrip |

The scripts' model (`ManualPairs.FixImagePairs`, `PairCheck.CheckMissingPairs`) reads the
table with the corrected reader `Csv.ParseCsv`. `Csv.DialectsAgree` shows that the two readers
agree on any table without two adjacent quotes.

Other behaviours of the source, kept as written and shown by lemmas:
`DataLoader.WindowsLineEndsRejected`, `Leaderboard.FormatTimesDifferBelowZero`,
`PairCheck.PairKeyCollision`, `ManualPairs.LaterPairOverwrites`,
`TrialGenerator.StaleIdStartsNewRound`, `TrialGenerator.TrailingConsonantDropped`,
`Plausibility.ShortForbiddenClusterAccepted`.
