/** The export of src/components/admin/DataExport.tsx: the PIN gate, the
    Russian factor and connotation labels, the classification of each trial
    and the comma-separated rows of the downloaded file. */
module DataExport {
  import opened Wrappers
  import opened Strings
  import TrialGenerator

  /** `PIN`. */
  const Pin: string := "1921"

  /** A factor and a connotation label. */
  datatype FactorInfo = FactorInfo(factor: string, connotation: string)

  // ---------------------------------------------------------------------
  // Labels

  /** The factor keys of the categories. */
  predicate KnownFactorKey(f: string) {
    f == "beauty" || f == "harmony" || f == "dynamics" || f == "originality" || f == "accuracy"
  }

  /** The Russian name of a factor key; any other key passes through. */
  function TranslateFactor(f: string): string {
    if f == "beauty" then "красота"
    else if f == "harmony" then "гармония"
    else if f == "dynamics" then "динамика"
    else if f == "originality" then "оригинальность"
    else if f == "accuracy" then "точность"
    else f
  }

  /** The five factor names. */
  predicate FactorName(n: string) {
    n == "красота" || n == "гармония" || n == "динамика" || n == "оригинальность" || n == "точность"
  }

  /** A key is translated exactly when it is one of the five, and then to a
      factor name. */
  lemma TranslateFactorMeaning(f: string)
    ensures KnownFactorKey(f) <==> TranslateFactor(f) != f
    ensures KnownFactorKey(f) ==> FactorName(TranslateFactor(f))
  {
  }

  /** The connotation keys. */
  predicate KnownConnotationKey(c: string) {
    c == "positive" || c == "high" || c == "negative" || c == "low"
  }

  /** The Russian connotation: `positive` and `high` are positive,
      `negative` and `low` negative, anything else passes through. */
  function TranslateConnotation(c: string): string {
    if c == "positive" || c == "high" then "положительное"
    else if c == "negative" || c == "low" then "отрицательное"
    else c
  }

  /** A connotation is translated exactly when it is one of the four keys,
      and then to one of the two labels, by pole. */
  lemma TranslateConnotationMeaning(c: string)
    ensures KnownConnotationKey(c) <==> TranslateConnotation(c) != c
    ensures TranslateConnotation(c) == "положительное" <==> c in {"positive", "high", "положительное"}
    ensures TranslateConnotation(c) == "отрицательное" <==> c in {"negative", "low", "отрицательное"}
  {
  }

  /** The labels of a category `factor_connotation`: `category.split('_')`,
      with a missing second piece (`undefined`, written as nothing) as the
      empty string. */
  function InfoOf(category: string): FactorInfo {
    var parts := Split(category, '_');
    FactorInfo(TranslateFactor(parts[0]), TranslateConnotation(if |parts| > 1 then parts[1] else ""))
  }

  /** A category written as a factor key and a connotation key, joined by
      `_`, gets their labels. */
  lemma InfoOfJoined(f: string, c: string)
    requires '_' !in f && '_' !in c
    ensures InfoOf(f + "_" + c) == FactorInfo(TranslateFactor(f), TranslateConnotation(c))
  {
    assert [f, c][1..] == [c];
    assert f + "_" + c == Join([f, c], '_');
    SplitJoin([f, c], '_');
  }

  // ---------------------------------------------------------------------
  // The word map

  /** `factorWordMap` after the first `n` words: each word mapped to the
      labels `labelOf` gives its category, a later word replacing an earlier
      one. The component's labelling is `InfoOf`. */
  function FactorMapUpTo(words: seq<TrialGenerator.CommonWord>, n: nat, labelOf: string -> FactorInfo): map<string, FactorInfo>
    requires n <= |words|
  {
    if n == 0 then map[]
    else FactorMapUpTo(words, n - 1, labelOf)[words[n - 1].word := labelOf(words[n - 1].category)]
  }

  function FactorWordMap(words: seq<TrialGenerator.CommonWord>): map<string, FactorInfo> {
    FactorMapUpTo(words, |words|, InfoOf)
  }

  /** Word `i` is the last of the first `n` words to carry its text. */
  ghost predicate LastWith(words: seq<TrialGenerator.CommonWord>, n: nat, i: nat)
    requires i < n <= |words|
  {
    forall j :: i < j < n ==> words[j].word != words[i].word
  }

  /** One of the first `n` words is `w`. */
  ghost predicate HasWord(words: seq<TrialGenerator.CommonWord>, n: nat, w: string)
    requires n <= |words|
  {
    exists i :: 0 <= i < n && words[i].word == w
  }

  /** The map holds exactly the words of the list. */
  lemma {:induction false} FactorMapKeys(words: seq<TrialGenerator.CommonWord>, n: nat, labelOf: string -> FactorInfo)
    requires n <= |words|
    ensures forall w :: w in FactorMapUpTo(words, n, labelOf) <==> HasWord(words, n, w)
  {
    if n > 0 {
      FactorMapKeys(words, n - 1, labelOf);
      forall w | HasWord(words, n, w) && w != words[n - 1].word
        ensures HasWord(words, n - 1, w)
      {
        var i :| 0 <= i < n && words[i].word == w;
      }
      forall w | HasWord(words, n - 1, w)
        ensures HasWord(words, n, w)
      {
        var i :| 0 <= i < n - 1 && words[i].word == w;
      }
      assert HasWord(words, n, words[n - 1].word);
    }
  }

  /** Each of the first `n` words that is the last with its text is mapped
      to the labels of its category. */
  ghost predicate ValuesUpTo(words: seq<TrialGenerator.CommonWord>, n: nat, m: map<string, FactorInfo>, labelOf: string -> FactorInfo)
    requires n <= |words|
  {
    forall i :: 0 <= i < n && LastWith(words, n, i) ==> words[i].word in m && m[words[i].word] == labelOf(words[i].category)
  }

  /** Each word is mapped to the labels of the category of its last
      occurrence. */
  lemma FactorMapValues(words: seq<TrialGenerator.CommonWord>, n: nat, labelOf: string -> FactorInfo)
    requires n <= |words|
    ensures ValuesUpTo(words, n, FactorMapUpTo(words, n, labelOf), labelOf)
  {
    forall i | 0 <= i < n && LastWith(words, n, i)
      ensures words[i].word in FactorMapUpTo(words, n, labelOf)
      ensures FactorMapUpTo(words, n, labelOf)[words[i].word] == labelOf(words[i].category)
    {
      FactorMapValueAt(words, n, labelOf, i);
    }
  }

  /** The word at a last occurrence is mapped to that occurrence's labels:
      later words of other texts leave its entry alone. */
  lemma {:induction false} FactorMapValueAt(words: seq<TrialGenerator.CommonWord>, n: nat, labelOf: string -> FactorInfo, i: nat)
    requires i < n <= |words| && LastWith(words, n, i)
    ensures words[i].word in FactorMapUpTo(words, n, labelOf)
    ensures FactorMapUpTo(words, n, labelOf)[words[i].word] == labelOf(words[i].category)
  {
    if i < n - 1 {
      assert words[n - 1].word != words[i].word;
      assert LastWith(words, n - 1, i);
      FactorMapValueAt(words, n - 1, labelOf, i);
    }
  }

  /** The ten categories of the factor list. */
  ghost predicate KnownCategory(c: string) {
    exists f, k :: KnownFactorKey(f) && KnownConnotationKey(k) && c == TrialGenerator.Category(f, k)
  }

  /** Every category of the factor list is one of the ten. */
  lemma FactorWordsCategories()
    ensures forall i :: 0 <= i < |TrialGenerator.FactorWords| ==> KnownCategory(TrialGenerator.FactorWords[i].category)
  {
    var words := TrialGenerator.FactorWords;
    forall i | 0 <= i < |words|
      ensures KnownCategory(words[i].category)
    {
      if i < 6 { KnownFactor(words[i].category, "beauty"); }
      else if i < 12 { KnownFactor(words[i].category, "harmony"); }
      else if i < 18 { KnownFactor(words[i].category, "dynamics"); }
      else if i < 24 { KnownFactor(words[i].category, "originality"); }
      else { KnownFactor(words[i].category, "accuracy"); }
    }
  }

  lemma KnownFactor(c: string, f: string)
    requires KnownFactorKey(f)
    requires c in {TrialGenerator.Category(f, "positive"), TrialGenerator.Category(f, "negative"),
                   TrialGenerator.Category(f, "high"), TrialGenerator.Category(f, "low")}
    ensures KnownCategory(c)
  {
  }

  /** The labels of a known category: a factor name and one of the two
      poles. */
  predicate KnownInfo(info: FactorInfo) {
    FactorName(info.factor) && (info.connotation == "положительное" || info.connotation == "отрицательное")
  }

  lemma KnownCategoryInfo(c: string)
    requires KnownCategory(c)
    ensures KnownInfo(InfoOf(c))
  {
    var f, k :| KnownFactorKey(f) && KnownConnotationKey(k) && c == TrialGenerator.Category(f, k);
    assert '_' !in f && '_' !in k;
    InfoOfJoined(f, k);
  }

  /** The map the component builds from the factor list. */
  function SourceMap(): map<string, FactorInfo> {
    FactorWordMap(TrialGenerator.FactorWords)
  }

  /** A list whose categories are all known gives a map of known labels. */
  lemma KnownMap(words: seq<TrialGenerator.CommonWord>)
    requires forall i :: 0 <= i < |words| ==> KnownCategory(words[i].category)
    ensures forall w :: w in FactorWordMap(words) ==> KnownInfo(FactorWordMap(words)[w])
  {
    FactorMapKeys(words, |words|, InfoOf);
    FactorMapValues(words, |words|, InfoOf);
    assert ValuesUpTo(words, |words|, FactorWordMap(words), InfoOf);
    forall w | w in FactorWordMap(words)
      ensures KnownInfo(FactorWordMap(words)[w])
    {
      var i := LastIndex(words, w);
      KnownCategoryInfo(words[i].category);
    }
  }

  /** Every word of the factor list is in the source's map, with a factor
      name and a pole, and nothing else is. */
  lemma SourceMapKnown()
    ensures forall w :: w in SourceMap() <==> HasWord(TrialGenerator.FactorWords, |TrialGenerator.FactorWords|, w)
    ensures forall w :: w in SourceMap() ==> KnownInfo(SourceMap()[w])
  {
    FactorMapKeys(TrialGenerator.FactorWords, |TrialGenerator.FactorWords|, InfoOf);
    FactorWordsCategories();
    KnownMap(TrialGenerator.FactorWords);
  }

  /** The last position of a word in a list that holds it. */
  lemma LastIndex(words: seq<TrialGenerator.CommonWord>, w: string) returns (i: nat)
    requires exists k :: 0 <= k < |words| && words[k].word == w
    ensures i < |words| && words[i].word == w && LastWith(words, |words|, i)
  {
    var k :| 0 <= k < |words| && words[k].word == w;
    i := k;
    while exists j :: i < j < |words| && words[j].word == w
      invariant k <= i < |words| && words[i].word == w
      decreases |words| - i
    {
      var j :| i < j < |words| && words[j].word == w;
      i := j;
    }
  }

  // ---------------------------------------------------------------------
  // Rows

  /** The trial fields the export reads; `wordType` is the stored text. */
  datatype TrialRecord = TrialRecord(participantNickname: string, imageFileName: string,
                                     reactionTimeMs: int, word: string, wordType: string,
                                     isCorrect: bool)

  const Unknown: FactorInfo := FactorInfo("неизвестно", "неизвестно")
  const TargetInfo: FactorInfo := FactorInfo("концепт", "таргет")
  const AntonymInfo: FactorInfo := FactorInfo("концепт", "антоним")
  const NonWordInfo: FactorInfo := FactorInfo("не-слово", "нейтральное")

  /** The `switch (trial.wordType)`: fixed labels for target, antonym and
      non-word trials, the map's labels for a factor word, and `неизвестно`
      twice for a factor word the map lacks or any other type. The map is
      looked up on its own keys only; a word naming an inherited key of
      `Object.prototype` is not modelled. */
  function Classify(wordType: string, word: string, m: map<string, FactorInfo>): FactorInfo {
    if wordType == "target" then TargetInfo
    else if wordType == "antonym" then AntonymInfo
    else if wordType == "factor" then (if word in m then m[word] else Unknown)
    else if wordType == "non-word" then NonWordInfo
    else Unknown
  }

  /** The word type a pair of labels stands for, `""` for the unknown
      pair. */
  function TypeOf(info: FactorInfo): string {
    if info == TargetInfo then "target"
    else if info == AntonymInfo then "antonym"
    else if info == NonWordInfo then "non-word"
    else if KnownInfo(info) then "factor"
    else ""
  }

  /** With a map of known labels, as the source's is, the labels of a row
      give its word type back, except that a factor word the map lacks and
      any other type both read as unknown. */
  lemma ClassifyDecodes(wordType: string, word: string, m: map<string, FactorInfo>)
    requires forall w :: w in m ==> KnownInfo(m[w])
    ensures var info := Classify(wordType, word, m);
      if wordType == "target" || wordType == "antonym" || wordType == "non-word" || (wordType == "factor" && word in m)
      then TypeOf(info) == wordType
      else info == Unknown && TypeOf(info) == ""
  {
  }

  function Verdict(isCorrect: bool): string {
    if isCorrect then "верно" else "ошибка"
  }

  /** The seven fields of a row, in order. */
  function RowFields(t: TrialRecord, m: map<string, FactorInfo>): (fields: seq<string>)
    ensures |fields| == 7
  {
    var info := Classify(t.wordType, t.word, m);
    [t.participantNickname, t.imageFileName, IntToString(t.reactionTimeMs), t.word,
     info.factor, info.connotation, Verdict(t.isCorrect)]
  }

  /** One row: the fields joined by commas, with no quoting. */
  function Row(t: TrialRecord, m: map<string, FactorInfo>): string {
    Join(RowFields(t, m), ',')
  }

  /** The header names. */
  const Headers: seq<string> := ["никнейм", "имя файла картинки", "время реакции", "слово", "фактор",
                                 "коннотация", "верно или ошибся"]

  /** `csvContent`: the header line and one row per trial, joined by line
      breaks. */
  function CsvContent(trials: seq<TrialRecord>, m: map<string, FactorInfo>): string {
    Join([Join(Headers, ',')] + Rows(trials, m), '\n')
  }

  /** The row of each trial, in order. */
  function Rows(trials: seq<TrialRecord>, m: map<string, FactorInfo>): (rows: seq<string>)
    ensures |rows| == |trials|
    ensures forall i :: 0 <= i < |trials| ==> rows[i] == Row(trials[i], m)
  {
    seq(|trials|, i requires 0 <= i < |trials| => Row(trials[i], m))
  }

  /** What a press of the export button yields. */
  datatype ExportOutcome = PinRejected | Download(content: string)

  /** `handleExport` on trials already fetched and sorted by file name. */
  function HandleExport(pin: string, trials: seq<TrialRecord>): ExportOutcome {
    if pin != Pin then PinRejected else Download(CsvContent(trials, SourceMap()))
  }

  /** The file is produced exactly when the PIN is `1921`; it is then the
      header line followed by one row per trial, in order, whenever the
      trials' own text holds no line break. */
  lemma HandleExportMeaning(pin: string, trials: seq<TrialRecord>)
    ensures HandleExport(pin, trials).Download? <==> pin == "1921"
    ensures HandleExport(pin, trials).Download? && (forall i :: 0 <= i < |trials| ==> TextOneLine(trials[i])) ==>
      Split(HandleExport(pin, trials).content, '\n') == [Join(Headers, ',')] + Rows(trials, SourceMap())
  {
    if pin == Pin {
      SourceMapOneLine();
      if forall i :: 0 <= i < |trials| ==> TextOneLine(trials[i]) {
        CsvLines(trials, SourceMap());
      }
    }
  }

  /** No label of the source's map holds a line break. */
  lemma SourceMapOneLine()
    ensures forall w :: w in SourceMap() ==> '\n' !in SourceMap()[w].factor && '\n' !in SourceMap()[w].connotation
  {
    SourceMapKnown();
    forall w | w in SourceMap()
      ensures '\n' !in SourceMap()[w].factor && '\n' !in SourceMap()[w].connotation
    {
      KnownInfoOneLine(SourceMap()[w]);
    }
  }

  /** Known labels hold no line break. */
  lemma KnownInfoOneLine(info: FactorInfo)
    requires KnownInfo(info)
    ensures '\n' !in info.factor && '\n' !in info.connotation
  {
    var f := info.factor;
    if f == "красота" { assert '\n' !in f; }
    else if f == "гармония" { assert '\n' !in f; }
    else if f == "динамика" { assert '\n' !in f; }
    else if f == "оригинальность" { assert '\n' !in f; }
    else { assert '\n' !in f; }
    var c := info.connotation;
    if c == "положительное" { assert '\n' !in c; }
    else { assert '\n' !in c; }
  }

  /** A row whose text fields hold no comma splits back into its seven
      fields, the last of which tells whether the answer was right. */
  lemma RowRoundTrip(t: TrialRecord, m: map<string, FactorInfo>)
    requires ',' !in t.participantNickname && ',' !in t.imageFileName && ',' !in t.word
    requires forall w :: w in m ==> ',' !in m[w].factor && ',' !in m[w].connotation
    ensures Split(Row(t, m), ',') == RowFields(t, m)
    ensures (Split(Row(t, m), ',')[6] == "верно") <==> t.isCorrect
  {
    var fields := RowFields(t, m);
    assert ',' !in IntToString(t.reactionTimeMs) by {
      NumberHasNoComma(t.reactionTimeMs);
    }
    SplitJoin(fields, ',');
  }

  /** A number is written with digits and at most a minus sign. */
  lemma NumberChars(i: int)
    ensures forall k :: 0 <= k < |IntToString(i)| ==> IntToString(i)[k] == '-' || '0' <= IntToString(i)[k] <= '9'
  {
    var s := IntToString(i);
    if i >= 0 {
      assert forall k :: 0 <= k < |s| ==> '0' <= s[k] <= '9';
    } else {
      var d := NatToString(-i);
      assert s == "-" + d;
      assert forall k :: 0 <= k < |d| ==> '0' <= d[k] <= '9';
      assert forall k :: 1 <= k < |s| ==> s[k] == d[k - 1];
    }
  }

  lemma NumberHasNoComma(i: int)
    ensures ',' !in IntToString(i) && '\n' !in IntToString(i)
  {
    NumberChars(i);
  }

  /** The text a trial brings to its row holds no line break. */
  ghost predicate TextOneLine(t: TrialRecord) {
    '\n' !in t.participantNickname && '\n' !in t.imageFileName && '\n' !in t.word
  }

  /** A record with no line break in its text fields, under a map with none
      in its labels. */
  ghost predicate OneLine(t: TrialRecord, m: map<string, FactorInfo>) {
    && TextOneLine(t)
    && forall w :: w in m ==> '\n' !in m[w].factor && '\n' !in m[w].connotation
  }

  /** Such a record gives a row of one line. */
  lemma RowOneLine(t: TrialRecord, m: map<string, FactorInfo>)
    requires OneLine(t, m)
    ensures '\n' !in Row(t, m)
  {
    var fields := RowFields(t, m);
    assert '\n' !in fields[4] && '\n' !in fields[5] by {
      ClassifyOneLine(t.wordType, t.word, m);
    }
    assert '\n' !in fields[2] by {
      NumberHasNoComma(t.reactionTimeMs);
    }
    assert '\n' !in fields[6];
    JoinExcludes(fields, ',', '\n');
  }

  /** The labels of a trial hold no line break when the map's do not. */
  lemma ClassifyOneLine(wordType: string, word: string, m: map<string, FactorInfo>)
    requires forall w :: w in m ==> '\n' !in m[w].factor && '\n' !in m[w].connotation
    ensures '\n' !in Classify(wordType, word, m).factor && '\n' !in Classify(wordType, word, m).connotation
  {
    FixedLabelsOneLine();
  }

  /** None of the fixed labels holds a line break. */
  lemma FixedLabelsOneLine()
    ensures forall info :: info in [TargetInfo, AntonymInfo, NonWordInfo, Unknown] ==>
      '\n' !in info.factor && '\n' !in info.connotation
  {
  }

  /** No header name holds a line break. */
  lemma HeadersOneLine()
    ensures NoBreaks(Headers)
  {
    forall i | 0 <= i < |Headers|
      ensures '\n' !in Headers[i]
    {
      var h := Headers[i];
      assert forall k :: 0 <= k < |h| ==> h[k] != '\n';
    }
  }

  /** No line of `lines` holds a line break. */
  ghost predicate NoBreaks(lines: seq<string>) {
    forall i :: 0 <= i < |lines| ==> '\n' !in lines[i]
  }

  /** The file reads back, line by line, as the header and one row per
      trial, in order, when no field holds a line break. */
  lemma CsvLines(trials: seq<TrialRecord>, m: map<string, FactorInfo>)
    requires forall i :: 0 <= i < |trials| ==> OneLine(trials[i], m)
    ensures Split(CsvContent(trials, m), '\n') == [Join(Headers, ',')] + Rows(trials, m)
  {
    var rows := Rows(trials, m);
    var lines := [Join(Headers, ',')] + rows;
    assert NoBreaks(lines) by {
      assert '\n' !in lines[0] by {
        HeadersOneLine();
        JoinExcludes(Headers, ',', '\n');
      }
      forall i | 0 <= i < |rows|
        ensures '\n' !in rows[i]
      {
        RowOneLine(trials[i], m);
      }
    }
    SplitJoin(lines, '\n');
  }
}
