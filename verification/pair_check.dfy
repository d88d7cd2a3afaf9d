/** scripts/checkMissingPairs.mjs: which indexed files have no partner, by
    hand or by prompt, and what is wrong with each pair made by hand. */
module PairCheck {
  import opened Wrappers
  import opened Strings
  import opened Sequences
  import opened Prompts
  import opened Csv
  import opened ImageIndex
  import opened ManualPairs

  // ---------------------------------------------------------------------
  // The partner of a file

  /** `findAssociatedFile`: the pair made by hand when there is one, no file
      for a file without a prompt, and otherwise the first file with the
      same prompt, another name and another model. The lookups are those of
      `ImageIndex.Get`, on own keys only. */
  function FindAssociatedFile(ix: FileIndex, manual: map<string, string>, f: string): Option<string>
  {
    if Truthy(Get(manual, f)) then Get(manual, f)
    else
      var prompt := Get(ix.prompts.at, f);
      if !Truthy(prompt) then None
      else FirstPartner(FilesOf(ix, prompt.value), f, Get(ix.models, f), ix.models)
  }

  /** On a consistent index the check finds the partner the pairing script
      finds, unless a pair made by hand takes its place. */
  lemma FindAssociatedAgrees(ix: FileIndex, manual: map<string, string>, f: string)
    requires Consistent(ix)
    ensures FindAssociatedFile(ix, manual, f) ==
      if Truthy(Get(manual, f)) then Some(manual[f]) else Associated(ix, f)
  {
  }

  /** `prompt.substring(0, 50) + '...'`. */
  function Preview(p: string): (r: string)
    ensures |r| == (if |p| < 50 then |p| else 50) + 3
    ensures r[..|r| - 3] == p[..|r| - 3] && r[|r| - 3..] == "..."
  {
    (if |p| < 50 then p else p[..50]) + "..."
  }

  /** An entry of `missingPairs`. */
  datatype MissingEntry = MissingEntry(fileName: string, model: Option<string>, prompt: string)

  /** The entry for a file without a partner. */
  function EntryOf(ix: FileIndex, f: string): MissingEntry
    requires f in ix.prompts.at
  {
    MissingEntry(f, Get(ix.models, f), Preview(ix.prompts.at[f]))
  }

  /** The `forEach` over the first `n` keys of `promptByFile` with the
      closure `find` for `findAssociatedFile`: an entry for each file it
      finds nothing for. */
  function MissingWith(ix: FileIndex, find: string -> Option<string>, n: nat): seq<MissingEntry>
    requires n <= |ix.prompts.keys| && ValidTable(ix.prompts)
  {
    if n == 0 then []
    else
      var rest := MissingWith(ix, find, n - 1);
      var f := ix.prompts.keys[n - 1];
      if Truthy(find(f)) then rest else rest + [EntryOf(ix, f)]
  }

  /** `missingPairs`. */
  function Missing(ix: FileIndex, manual: map<string, string>): seq<MissingEntry>
    requires ValidTable(ix.prompts)
  {
    MissingWith(ix, FindOn(ix, manual), |ix.prompts.keys|)
  }

  /** `findAssociatedFile`, as a closure over the index and the pairs made
      by hand. */
  function FindOn(ix: FileIndex, manual: map<string, string>): string -> Option<string> {
    f => FindAssociatedFile(ix, manual, f)
  }

  /** The entries for the first `n` keys: one for each file `find` finds
      nothing for, made from what the index holds for it. */
  ghost predicate MissingUpTo(ix: FileIndex, find: string -> Option<string>, n: nat, missing: seq<MissingEntry>)
    requires n <= |ix.prompts.keys|
  {
    && (forall e :: e in missing ==> e.fileName in ix.prompts.at && e == EntryOf(ix, e.fileName))
    && (forall f :: (exists e :: e in missing && e.fileName == f) <==>
          f in ix.prompts.keys[..n] && !Truthy(find(f)))
  }

  lemma {:induction false} MissingWithMeaning(ix: FileIndex, find: string -> Option<string>, n: nat)
    requires n <= |ix.prompts.keys| && ValidTable(ix.prompts)
    ensures MissingUpTo(ix, find, n, MissingWith(ix, find, n))
  {
    if n > 0 {
      MissingWithMeaning(ix, find, n - 1);
      MissingWithStep(ix, find, n, MissingWith(ix, find, n - 1), MissingWith(ix, find, n));
    }
  }

  lemma MissingWithStep(ix: FileIndex, find: string -> Option<string>, n: nat,
                        rest: seq<MissingEntry>, missing: seq<MissingEntry>)
    requires 0 < n <= |ix.prompts.keys| && ValidTable(ix.prompts)
    requires MissingUpTo(ix, find, n - 1, rest)
    requires var f := ix.prompts.keys[n - 1];
      && f in ix.prompts.at
      && missing == if Truthy(find(f)) then rest else rest + [EntryOf(ix, f)]
    ensures MissingUpTo(ix, find, n, missing)
  {
    var keys := ix.prompts.keys;
    assert keys[..n] == keys[..n - 1] + [keys[n - 1]];
  }

  /** A file is reported missing exactly when it is indexed, has no pair
      made by hand and no associated file; its entry holds its model and
      the start of its prompt. */
  lemma MissingMeaning(ix: FileIndex, manual: map<string, string>)
    requires Consistent(ix)
    ensures var missing := Missing(ix, manual);
      && (forall e :: e in missing ==>
            e.fileName in ix.prompts.at && e.model == Some(ix.models[e.fileName]) &&
            e.prompt == Preview(ix.prompts.at[e.fileName]))
      && (forall f :: (exists e :: e in missing && e.fileName == f) <==>
            f in ix.prompts.at && !Truthy(Get(manual, f)) && Associated(ix, f).None?)
  {
    var find := FindOn(ix, manual);
    var n := |ix.prompts.keys|;
    MissingWithMeaning(ix, find, n);
    assert ix.prompts.keys[..n] == ix.prompts.keys;
    forall f
      ensures Truthy(find(f)) <==> Truthy(Get(manual, f)) || Associated(ix, f).Some?
    {
      AssociatedTruthy(ix, f);
      FindAssociatedAgrees(ix, manual, f);
    }
  }

  // ---------------------------------------------------------------------
  // Keys of pairs

  /** JavaScript's `<` on strings: character by character, a proper prefix
      before the longer string. */
  predicate StrLt(a: string, b: string)
    decreases |a|
  {
    if |b| == 0 then false
    else if |a| == 0 then true
    else if a[0] != b[0] then a[0] < b[0]
    else StrLt(a[1..], b[1..])
  }

  /** Of two strings exactly one is smaller, unless they are equal. */
  lemma {:induction false} StrLtTrichotomy(a: string, b: string)
    ensures !(StrLt(a, b) && StrLt(b, a))
    ensures a != b ==> StrLt(a, b) || StrLt(b, a)
    ensures !StrLt(a, a)
    decreases |a|
  {
    if |a| > 0 {
      StrLtTrichotomy(a[1..], a[1..]);
    }
    if |a| > 0 && |b| > 0 {
      StrLtTrichotomy(a[1..], b[1..]);
      if a[0] == b[0] && a != b {
        assert a == [a[0]] + a[1..] && b == [b[0]] + b[1..];
      }
    }
  }

  /** `[a, b].sort()`: the default order of strings, the first one first when
      neither is smaller. */
  function SortTwo(a: string, b: string): seq<string> {
    if StrLt(b, a) then [b, a] else [a, b]
  }

  /** `[file1, file2].sort().join('|')`. */
  function PairKey(a: string, b: string): string {
    Join(SortTwo(a, b), '|')
  }

  /** The key does not depend on the order of the two files. */
  lemma PairKeySymmetric(a: string, b: string)
    ensures PairKey(a, b) == PairKey(b, a)
  {
    StrLtTrichotomy(a, b);
  }

  /** Two pairs of names without `|` share a key only when they are the
      same two files. */
  lemma PairKeyInjective(a: string, b: string, c: string, d: string)
    requires '|' !in a && '|' !in b && '|' !in c && '|' !in d
    requires PairKey(a, b) == PairKey(c, d)
    ensures (a == c && b == d) || (a == d && b == c)
  {
    var s1, s2 := SortTwo(a, b), SortTwo(c, d);
    SplitJoin(s1, '|');
    SplitJoin(s2, '|');
    assert s1 == s2;
  }

  /** With a `|` in a name, two different pairs share a key, and the second
      is then skipped as already checked. */
  lemma PairKeyCollision()
    ensures PairKey("a|b", "c") == PairKey("a", "b|c") == "a|b|c"
  {
    assert StrLt("a|b", "c");
    assert StrLt("a", "b|c");
  }

  // ---------------------------------------------------------------------
  // Pairs made by hand

  /** What the check prints for one pair made by hand: whether the reverse
      link is missing, whether either file is unknown, whether both files
      have the same model, and whether their prompts differ. */
  datatype PairReport = PairReport(file1: string, file2: string, notMutual: bool,
                                   file1Unknown: bool, file2Unknown: bool,
                                   sameModel: bool, promptsDiffer: bool)

  function Report(ix: FileIndex, manual: map<string, string>, f1: string, f2: string): PairReport
  {
    var m1, m2 := Get(ix.models, f1), Get(ix.models, f2);
    var p1, p2 := Get(ix.prompts.at, f1), Get(ix.prompts.at, f2);
    PairReport(f1, f2,
      !(Truthy(Get(manual, f2)) && manual[f2] == f1),
      !Truthy(p1), !Truthy(p2),
      Truthy(m1) && Truthy(m2) && m1.value == m2.value,
      Truthy(p1) && Truthy(p2) && NormalizePrompt(p1.value) != NormalizePrompt(p2.value))
  }

  /** On a consistent index: the reverse link is missing exactly when the
      second file does not point back to a named first file; a file is
      unknown exactly when it is not indexed; the models and prompts
      compared are the indexed ones, and prompts differ exactly when the
      recorded prompts do. */
  lemma ReportMeaning(ix: FileIndex, manual: map<string, string>, f1: string, f2: string)
    requires Consistent(ix)
    ensures var r := Report(ix, manual, f1, f2);
      && (r.notMutual <==> f1 == "" || Get(manual, f2) != Some(f1))
      && (r.file1Unknown <==> f1 !in ix.prompts.at)
      && (r.file2Unknown <==> f2 !in ix.prompts.at)
      && (r.sameModel <==> f1 in ix.models && f2 in ix.models && ix.models[f1] == ix.models[f2])
      && (r.promptsDiffer <==> f1 in ix.prompts.at && f2 in ix.prompts.at && ix.prompts.at[f1] != ix.prompts.at[f2])
  {
    if f1 in ix.prompts.at && f2 in ix.prompts.at {
      NormalFixed(ix.prompts.at[f1]);
      NormalFixed(ix.prompts.at[f2]);
    }
  }

  /** The keys of the pairs checked so far and the reports printed. */
  datatype Checked = Checked(processed: set<string>, reports: seq<PairReport>)

  /** The `forEach` over the first `n` keys of `manualPairs`, with `key` for
      the key of a pair and `report` for what is printed about it: a pair
      whose key was seen is skipped. */
  function CheckWith(manual: Table, key: (string, string) -> string,
                     report: (string, string) -> PairReport, n: nat): Checked
    requires n <= |manual.keys| && ValidTable(manual)
  {
    if n == 0 then Checked({}, [])
    else
      var c := CheckWith(manual, key, report, n - 1);
      var f1 := manual.keys[n - 1];
      var k := key(f1, manual.at[f1]);
      if k in c.processed then c
      else Checked(c.processed + {k}, c.reports + [report(f1, manual.at[f1])])
  }

  /** The reports on the pairs made by hand. */
  function CheckManual(ix: FileIndex, manual: Table): seq<PairReport>
    requires ValidTable(manual)
  {
    CheckWith(manual, PairKey, ReportOn(ix, manual.at), |manual.keys|).reports
  }

  /** What the loop keeps after `n` keys: every report is of a pair made by
      hand, the keys seen are those of the reports, no key is reported
      twice, and every pair of the first `n` keys has its key seen. */
  ghost predicate CheckedUpTo(manual: Table, key: (string, string) -> string,
                              report: (string, string) -> PairReport, n: nat, c: Checked)
    requires n <= |manual.keys|
  {
    && ReportsOfPairs(manual, report, c.reports)
    && KeysSeen(key, c)
    && KeysDistinct(key, c.reports)
    && (forall i :: 0 <= i < n ==> manual.keys[i] in manual.at && key(manual.keys[i], manual.at[manual.keys[i]]) in c.processed)
  }

  ghost predicate ReportsOfPairs(manual: Table, report: (string, string) -> PairReport, reports: seq<PairReport>) {
    forall i :: 0 <= i < |reports| ==>
      reports[i].file1 in manual.at && reports[i] == report(reports[i].file1, manual.at[reports[i].file1])
  }

  ghost predicate KeysSeen(key: (string, string) -> string, c: Checked) {
    forall x :: x in c.processed <==> exists i :: 0 <= i < |c.reports| && key(c.reports[i].file1, c.reports[i].file2) == x
  }

  ghost predicate KeysDistinct(key: (string, string) -> string, reports: seq<PairReport>) {
    forall i, j :: 0 <= i < j < |reports| ==>
      key(reports[i].file1, reports[i].file2) != key(reports[j].file1, reports[j].file2)
  }

  /** A report names the pair it is about. */
  ghost predicate Names(report: (string, string) -> PairReport) {
    forall a, b :: report(a, b).file1 == a && report(a, b).file2 == b
  }

  lemma {:induction false} CheckWithMeaning(manual: Table, key: (string, string) -> string,
                                            report: (string, string) -> PairReport, n: nat)
    requires n <= |manual.keys| && ValidTable(manual) && Names(report)
    ensures CheckedUpTo(manual, key, report, n, CheckWith(manual, key, report, n))
  {
    if n > 0 {
      CheckWithMeaning(manual, key, report, n - 1);
      CheckWithStep(manual, key, report, n, CheckWith(manual, key, report, n - 1), CheckWith(manual, key, report, n));
    }
  }

  lemma CheckWithStep(manual: Table, key: (string, string) -> string,
                      report: (string, string) -> PairReport, n: nat, c: Checked, c2: Checked)
    requires 0 < n <= |manual.keys| && ValidTable(manual) && Names(report)
    requires CheckedUpTo(manual, key, report, n - 1, c)
    requires var f1 := manual.keys[n - 1];
      && f1 in manual.at
      && c2 == if key(f1, manual.at[f1]) in c.processed then c
               else Checked(c.processed + {key(f1, manual.at[f1])}, c.reports + [report(f1, manual.at[f1])])
    ensures CheckedUpTo(manual, key, report, n, c2)
  {
    var f1 := manual.keys[n - 1];
    var k := key(f1, manual.at[f1]);
    if k !in c.processed {
      var r := report(f1, manual.at[f1]);
      ReportsOfPairsStep(manual, report, c.reports, r);
      KeysSeenStep(key, c, r, k);
      KeysDistinctStep(key, c, r, k);
    }
  }

  lemma ReportsOfPairsStep(manual: Table, report: (string, string) -> PairReport, reports: seq<PairReport>, r: PairReport)
    requires ReportsOfPairs(manual, report, reports)
    requires r.file1 in manual.at && r == report(r.file1, manual.at[r.file1])
    ensures ReportsOfPairs(manual, report, reports + [r])
  {
    var rs := reports + [r];
    forall i | 0 <= i < |rs|
      ensures rs[i].file1 in manual.at && rs[i] == report(rs[i].file1, manual.at[rs[i].file1])
    {
      if i < |reports| {
        assert rs[i] == reports[i];
      }
    }
  }

  lemma KeysSeenStep(key: (string, string) -> string, c: Checked, r: PairReport, k: string)
    requires KeysSeen(key, c) && key(r.file1, r.file2) == k
    ensures KeysSeen(key, Checked(c.processed + {k}, c.reports + [r]))
  {
    var rs := c.reports + [r];
    forall x
      ensures x in c.processed + {k} <==> exists i :: 0 <= i < |rs| && key(rs[i].file1, rs[i].file2) == x
    {
      if x in c.processed {
        var i :| 0 <= i < |c.reports| && key(c.reports[i].file1, c.reports[i].file2) == x;
        assert rs[i] == c.reports[i];
      } else if x == k {
        assert rs[|c.reports|] == r;
      } else {
        forall i | 0 <= i < |rs|
          ensures key(rs[i].file1, rs[i].file2) != x
        {
          if i < |c.reports| {
            assert rs[i] == c.reports[i];
          }
        }
      }
    }
  }

  lemma KeysDistinctStep(key: (string, string) -> string, c: Checked, r: PairReport, k: string)
    requires KeysSeen(key, c) && KeysDistinct(key, c.reports)
    requires key(r.file1, r.file2) == k && k !in c.processed
    ensures KeysDistinct(key, c.reports + [r])
  {
    var rs := c.reports + [r];
    forall i, j | 0 <= i < j < |rs|
      ensures key(rs[i].file1, rs[i].file2) != key(rs[j].file1, rs[j].file2)
    {
      assert rs[i] == c.reports[i];
      if j < |c.reports| {
        assert rs[j] == c.reports[j];
      } else {
        assert rs[j] == r;
        assert key(c.reports[i].file1, c.reports[i].file2) in c.processed;
      }
    }
  }

  /** The report the script prints, as a closure over the index and the
      pairs made by hand. */
  function ReportOn(ix: FileIndex, manual: map<string, string>): (string, string) -> PairReport {
    (a, b) => Report(ix, manual, a, b)
  }

  /** The script's report names the pair it is about. */
  lemma ReportNames(ix: FileIndex, manual: map<string, string>)
    ensures Names(ReportOn(ix, manual))
  {
  }

  /** Every pair made by hand has its key among the pairs reported, and no
      key is reported twice. */
  lemma PairReported(ix: FileIndex, manual: Table, a: string)
    requires ValidTable(manual) && a in manual.at
    ensures HasKey(PairKey, CheckManual(ix, manual), PairKey(a, manual.at[a]))
    ensures KeysDistinct(PairKey, CheckManual(ix, manual))
  {
    ReportNames(ix, manual.at);
    PairReportedWith(manual, PairKey, ReportOn(ix, manual.at), a);
  }

  lemma PairReportedWith(manual: Table, key: (string, string) -> string,
                         report: (string, string) -> PairReport, a: string)
    requires ValidTable(manual) && Names(report) && a in manual.at
    ensures var reports := CheckWith(manual, key, report, |manual.keys|).reports;
      HasKey(key, reports, key(a, manual.at[a])) && KeysDistinct(key, reports)
  {
    var n := |manual.keys|;
    CheckWithMeaning(manual, key, report, n);
    var c := CheckWith(manual, key, report, n);
    var i :| 0 <= i < n && manual.keys[i] == a;
    assert key(a, manual.at[a]) in c.processed;
    assert KeysSeen(key, c);
  }

  /** Some report is about a pair with key `x`. */
  ghost predicate HasKey(key: (string, string) -> string, reports: seq<PairReport>, x: string) {
    exists i :: 0 <= i < |reports| && key(reports[i].file1, reports[i].file2) == x
  }

  /** Links that all go both ways between named files give no report of a
      missing reverse link. */
  lemma MutualPairsAgree(ix: FileIndex, manual: Table)
    requires ValidTable(manual)
    requires forall a :: a in manual.at ==> a != "" && manual.at[a] in manual.at && manual.at[manual.at[a]] == a
    ensures forall r :: r in CheckManual(ix, manual) ==> !r.notMutual
  {
    var n := |manual.keys|;
    var report := ReportOn(ix, manual.at);
    ReportNames(ix, manual.at);
    CheckWithMeaning(manual, PairKey, report, n);
    var c := CheckWith(manual, PairKey, report, n);
    assert ReportsOfPairs(manual, report, c.reports);
    forall r | r in c.reports
      ensures !r.notMutual
    {
      var i :| 0 <= i < |c.reports| && c.reports[i] == r;
      var f1 := r.file1;
      assert f1 in manual.at && r == report(f1, manual.at[f1]);
      MutualReport(ix, manual.at, f1);
    }
  }

  /** A link returned by its partner is reported as mutual. */
  lemma MutualReport(ix: FileIndex, manual: map<string, string>, f1: string)
    requires f1 in manual && f1 != "" && manual[f1] in manual && manual[manual[f1]] == f1
    ensures !Report(ix, manual, f1, manual[f1]).notMutual
  {
  }

  // ---------------------------------------------------------------------
  // The whole check

  /** The two lists the script prints. */
  datatype Outcome = Outcome(missing: seq<MissingEntry>, checked: seq<PairReport>)

  function CheckIndex(ix: FileIndex, manual: Table): Outcome
    requires ValidTable(ix.prompts) && ValidTable(manual)
  {
    Outcome(Missing(ix, manual.at), CheckManual(ix, manual))
  }

  /** `headers.findIndex(...)`, with -1 when the name is missing. */
  function HeaderIndex(headers: seq<string>, name: string): int {
    var c := FindColumn(headers, name);
    if c.Some? then c.value else -1
  }

  /** The largest of the three column positions the script computes. */
  function MaxHeader(headers: seq<string>): int {
    var p, m, f := HeaderIndex(headers, "prompt"), HeaderIndex(headers, "model_name"), HeaderIndex(headers, "file_name");
    if p >= m && p >= f then p else if m >= f then m else f
  }

  /** The whole script on the text of the sample table, read with the
      corrected CSV reader (`Csv.ParseCsv`), and the saved pairs. It has
      no check for a missing column: the first data row long enough to be
      read then fails on the missing cell, and `None` stands for that
      error, as for a table without a header row. */
  function CheckMissingPairs(text: string, manual: Table): Option<Outcome>
    requires ValidTable(manual)
  {
    var rows := ParseCsv(text);
    if |rows| == 0 then None
    else
      var cols := ReadColumns(rows);
      if cols.Some? then
        IndexRowsConsistent(cols.value, rows[1..], |rows| - 1);
        Some(CheckIndex(BuildIndex(cols.value, rows), manual))
      else if exists i :: 1 <= i < |rows| && |rows[i]| > MaxHeader(rows[0]) then None
      else
        assert ValidTable(EmptyIndex.prompts);
        Some(CheckIndex(EmptyIndex, manual))
  }

  /** With nothing indexed, every file of a pair made by hand is unknown. */
  lemma EmptyIndexReports(manual: Table)
    requires ValidTable(manual)
    ensures forall r :: r in CheckManual(EmptyIndex, manual) ==> r.file1Unknown && r.file2Unknown
  {
    var report := ReportOn(EmptyIndex, manual.at);
    ReportNames(EmptyIndex, manual.at);
    CheckWithMeaning(manual, PairKey, report, |manual.keys|);
    var c := CheckWith(manual, PairKey, report, |manual.keys|);
    forall r | r in c.reports
      ensures r.file1Unknown && r.file2Unknown
    {
      var i :| 0 <= i < |c.reports| && c.reports[i] == r;
    }
  }

  /** A missing column fails the script exactly when some data row is long
      enough to be read; otherwise nothing is indexed, no file is missing
      and every file of a pair made by hand is unknown. */
  lemma MissingColumnMeaning(text: string, manual: Table)
    requires ValidTable(manual)
    ensures var rows := ParseCsv(text);
      |rows| > 0 && ReadColumns(rows).None? ==>
        (CheckMissingPairs(text, manual).None? <==> exists i :: 1 <= i < |rows| && |rows[i]| > MaxHeader(rows[0]))
    ensures var rows := ParseCsv(text);
      CheckMissingPairs(text, manual).Some? && ReadColumns(rows).None? ==>
        CheckMissingPairs(text, manual).value.missing == [] &&
        forall r :: r in CheckMissingPairs(text, manual).value.checked ==> r.file1Unknown && r.file2Unknown
  {
    EmptyIndexReports(manual);
  }

  /** After the pairing script, run on the same table, saved its pairs, a
      file is reported missing only when the pairing script found no
      associated file for it and saved no pair for it either. */
  lemma MissingAfterFix(text: string, manual: Table)
    requires ValidTable(manual)
    ensures FixImagePairs(text).Some? && manual.at == FixImagePairs(text).value ==>
      var rows := ParseCsv(text);
      var ix := BuildIndex(ReadColumns(rows).value, rows);
      var part := Classify(ix);
      CheckMissingPairs(text, manual).Some? &&
      forall e :: e in CheckMissingPairs(text, manual).value.missing ==>
        e.fileName in part.withoutPairs && !Truthy(Get(manual.at, e.fileName)) && e.fileName !in KnownPairs
  {
    if FixImagePairs(text).Some? && manual.at == FixImagePairs(text).value {
      var rows := ParseCsv(text);
      FixImagePairsMeaning(text);
      var cols := ReadColumns(rows).value;
      var ix := BuildIndex(cols, rows);
      IndexRowsConsistent(cols, rows[1..], |rows| - 1);
      assert CheckMissingPairs(text, manual) == Some(CheckIndex(ix, manual));
      FixKeepsKnown(text);
      MissingOutsideKnown(ix, manual.at);
    }
  }

  /** When the hand-made pairs hold every known pair, no file of a known
      pair is reported missing. */
  lemma MissingOutsideKnown(ix: FileIndex, manual: map<string, string>)
    requires Consistent(ix)
    requires forall k :: k in KnownPairs ==> k in manual && manual[k] == KnownPairs[k]
    ensures forall e :: e in Missing(ix, manual) ==>
      e.fileName in Classify(ix).withoutPairs && !Truthy(Get(manual, e.fileName)) && e.fileName !in KnownPairs
  {
    MissingUnpaired(ix, manual);
    forall e | e in Missing(ix, manual)
      ensures e.fileName !in KnownPairs
    {
      KnownPairsNamed(e.fileName);
    }
  }

  /** A file reported missing is one the pairing script finds no associated
      file for, and one without a pair made by hand. */
  lemma MissingUnpaired(ix: FileIndex, manual: map<string, string>)
    requires Consistent(ix)
    ensures forall e :: e in Missing(ix, manual) ==>
      e.fileName in Classify(ix).withoutPairs && !Truthy(Get(manual, e.fileName))
  {
    MissingMeaning(ix, manual);
    ClassifyMeaning(ix);
  }
}
