/** The prompt/model index both pair scripts build from the sample table
    (scripts/fixImagePairs.mjs and scripts/checkMissingPairs.mjs): header
    lookup, the per-row registration of a file, and the search for the
    file's partner, one with the same prompt and another model. */
module ImageIndex {
  import opened Wrappers
  import opened Strings
  import opened Sequences
  import opened Prompts

  // ---------------------------------------------------------------------
  // JavaScript objects used as string-keyed dictionaries

  /** A plain object with string keys: `keys` in the order
      `Object.keys` lists them (first assignment first), `at` the values. */
  datatype Table = Table(keys: seq<string>, at: map<string, string>)

  const EmptyTable := Table([], map[])

  /** The keys are listed once each, and exactly the keys with a value. */
  ghost predicate ValidTable(t: Table) {
    Distinct(t.keys) && (forall k :: k in t.at <==> k in t.keys)
  }

  /** `t[k] = v`: a new key goes last, an existing one keeps its place. */
  function Put(t: Table, k: string, v: string): (r: Table)
    ensures ValidTable(t) ==> ValidTable(r)
    ensures r.at == t.at[k := v]
    ensures k in t.at ==> r.keys == t.keys
    ensures k !in t.at ==> r.keys == t.keys + [k]
  {
    if k in t.at then t.(at := t.at[k := v])
    else
      var r := Table(t.keys + [k], t.at[k := v]);
      assert ValidTable(t) ==> Distinct(r.keys) by {
        if ValidTable(t) {
          assert forall i :: 0 <= i < |t.keys| ==> r.keys[i] == t.keys[i] && t.keys[i] in t.at;
        }
      }
      r
  }

  /** `obj[k]` on the object's own keys, with `undefined` as `None`. Keys a
      plain object inherits from `Object.prototype` (`constructor`,
      `toString`, ...) are not modelled: the model reads them as absent. */
  function Get(m: map<string, string>, k: string): (r: Option<string>)
    ensures r.Some? <==> k in m
    ensures r.Some? ==> r.value == m[k]
  {
    if k in m then Some(m[k]) else None
  }

  /** JavaScript truthiness of a string that may be `undefined`. */
  predicate Truthy(o: Option<string>) {
    o.Some? && o.value != ""
  }

  // ---------------------------------------------------------------------
  // Header lookup

  /** `headers.findIndex(h => h.trim() === name)`, from position `i`, with
      -1 as `None`. */
  function FindColumnFrom(headers: seq<string>, name: string, i: nat): (r: Option<nat>)
    requires i <= |headers|
    ensures r.Some? ==> i <= r.value < |headers| && Trim(headers[r.value]) == name
    ensures r.Some? ==> forall k :: i <= k < r.value ==> Trim(headers[k]) != name
    ensures r.None? <==> forall k :: i <= k < |headers| ==> Trim(headers[k]) != name
    decreases |headers| - i
  {
    if i == |headers| then None
    else if Trim(headers[i]) == name then Some(i)
    else FindColumnFrom(headers, name, i + 1)
  }

  function FindColumn(headers: seq<string>, name: string): Option<nat> {
    FindColumnFrom(headers, name, 0)
  }

  /** Where the three needed columns are. */
  datatype Columns = Columns(prompt: nat, model: nat, fileName: nat)

  /** The header lookup of the first row. An empty table has no header:
      the script fails on it as it does on a missing column. */
  function ReadColumns(rows: seq<seq<string>>): (r: Option<Columns>)
    ensures r.Some? <==> (|rows| > 0 && FindColumn(rows[0], "prompt").Some? &&
                          FindColumn(rows[0], "model_name").Some? && FindColumn(rows[0], "file_name").Some?)
    ensures r.Some? ==> r.value == Columns(FindColumn(rows[0], "prompt").value,
      FindColumn(rows[0], "model_name").value, FindColumn(rows[0], "file_name").value)
  {
    if |rows| == 0 then None
    else
      match (FindColumn(rows[0], "prompt"), FindColumn(rows[0], "model_name"), FindColumn(rows[0], "file_name"))
      case (Some(p), Some(m), Some(f)) => Some(Columns(p, m, f))
      case _ => None
  }

  /** The header cell named by each found column is that name, trimmed. */
  lemma ColumnsNamed(rows: seq<seq<string>>)
    requires ReadColumns(rows).Some?
    ensures var c := ReadColumns(rows).value;
      && c.prompt < |rows[0]| && Trim(rows[0][c.prompt]) == "prompt"
      && c.model < |rows[0]| && Trim(rows[0][c.model]) == "model_name"
      && c.fileName < |rows[0]| && Trim(rows[0][c.fileName]) == "file_name"
  {
  }

  // ---------------------------------------------------------------------
  // The index

  /** `promptByFile`, `modelByFile` and `filesByPrompt`. */
  datatype FileIndex = FileIndex(prompts: Table, models: map<string, string>, files: map<string, seq<string>>)

  const EmptyIndex := FileIndex(EmptyTable, map[], map[])

  function Max3(a: nat, b: nat, c: nat): (r: nat)
    ensures r >= a && r >= b && r >= c && (r == a || r == b || r == c)
  {
    if a >= b && a >= c then a else if b >= c then b else c
  }

  /** The row holds every needed column. */
  predicate LongEnough(row: seq<string>, cols: Columns) {
    |row| > Max3(cols.prompt, cols.model, cols.fileName)
  }

  /** A row that registers a file: long enough, and the normalised prompt,
      the trimmed model and the trimmed file name are all non-empty. */
  predicate Registers(row: seq<string>, cols: Columns) {
    && LongEnough(row, cols)
    && NormalizePrompt(row[cols.prompt]) != ""
    && Trim(row[cols.model]) != ""
    && Trim(row[cols.fileName]) != ""
  }

  function FileOf(row: seq<string>, cols: Columns): string
    requires LongEnough(row, cols)
  {
    Trim(row[cols.fileName])
  }

  function PromptOf(row: seq<string>, cols: Columns): string
    requires LongEnough(row, cols)
  {
    NormalizePrompt(row[cols.prompt])
  }

  function ModelOf(row: seq<string>, cols: Columns): string
    requires LongEnough(row, cols)
  {
    Trim(row[cols.model])
  }

  /** The list of files registered under a prompt (`filesByPrompt[p] || []`). */
  function FilesOf(ix: FileIndex, p: string): seq<string> {
    if p in ix.files then ix.files[p] else []
  }

  /** One pass of the loop over the data rows. */
  function AddRow(ix: FileIndex, cols: Columns, row: seq<string>): (r: FileIndex)
    ensures !Registers(row, cols) ==> r == ix
    ensures Registers(row, cols) ==>
      var f := FileOf(row, cols);
      var p := PromptOf(row, cols);
      && r.prompts == Put(ix.prompts, f, p)
      && r.models == ix.models[f := ModelOf(row, cols)]
      && r.files == ix.files[p := FilesOf(ix, p) + [f]]
  {
    if !LongEnough(row, cols) then ix
    else
      var p := NormalizePrompt(row[cols.prompt]);
      var m := Trim(row[cols.model]);
      var f := Trim(row[cols.fileName]);
      if p != "" && m != "" && f != "" then
        FileIndex(Put(ix.prompts, f, p), ix.models[f := m], ix.files[p := FilesOf(ix, p) + [f]])
      else ix
  }

  /** The index after the first `n` data rows, in order. */
  function IndexRows(cols: Columns, rows: seq<seq<string>>, n: nat): FileIndex
    requires n <= |rows|
  {
    if n == 0 then EmptyIndex
    else AddRow(IndexRows(cols, rows, n - 1), cols, rows[n - 1])
  }

  /** The index of a whole table: every row after the header. */
  function BuildIndex(cols: Columns, table: seq<seq<string>>): FileIndex
  {
    if |table| == 0 then EmptyIndex else IndexRows(cols, table[1..], |table| - 1)
  }

  /** What holds of every index the loop builds. */
  ghost predicate Consistent(ix: FileIndex) {
    && ValidTable(ix.prompts)
    && (forall f :: f in ix.prompts.at <==> f in ix.models)
    && (forall f :: f in ix.prompts.at ==> f != "" && ix.models[f] != "")
    && (forall f :: f in ix.prompts.at ==> ix.prompts.at[f] != "" && Normal(ix.prompts.at[f]))
    && (forall f :: f in ix.prompts.at ==> f in FilesOf(ix, ix.prompts.at[f]))
    && (forall p, f :: p in ix.files && f in ix.files[p] ==> f in ix.prompts.at)
  }

  lemma AddRowConsistent(ix: FileIndex, cols: Columns, row: seq<string>)
    requires Consistent(ix)
    ensures Consistent(AddRow(ix, cols, row))
  {
    if Registers(row, cols) {
      NormalizeNormal(row[cols.prompt]);
      AddRowListed(ix, cols, row);
      AddRowFilesIndexed(ix, cols, row);
    }
  }

  /** A registered file is listed under its new prompt, and every other file
      stays listed under its own. */
  lemma AddRowListed(ix: FileIndex, cols: Columns, row: seq<string>)
    requires Consistent(ix) && Registers(row, cols)
    ensures var r := AddRow(ix, cols, row);
      forall g :: g in r.prompts.at ==> g in FilesOf(r, r.prompts.at[g])
  {
    var r := AddRow(ix, cols, row);
    var f := FileOf(row, cols);
    var p := PromptOf(row, cols);
    forall g | g in r.prompts.at
      ensures g in FilesOf(r, r.prompts.at[g])
    {
      if g != f {
        var q := ix.prompts.at[g];
        assert g in FilesOf(ix, q);
        if q == p {
          assert FilesOf(r, q) == FilesOf(ix, q) + [f];
        } else {
          assert FilesOf(r, q) == FilesOf(ix, q);
        }
      } else {
        assert FilesOf(r, p) == FilesOf(ix, p) + [f];
      }
    }
  }

  /** Every listed file stays indexed. */
  lemma AddRowFilesIndexed(ix: FileIndex, cols: Columns, row: seq<string>)
    requires Consistent(ix) && Registers(row, cols)
    ensures var r := AddRow(ix, cols, row);
      forall q, g :: q in r.files && g in r.files[q] ==> g in r.prompts.at
  {
    var r := AddRow(ix, cols, row);
    var p := PromptOf(row, cols);
    forall q, g | q in r.files && g in r.files[q]
      ensures g in r.prompts.at
    {
      if q == p {
        assert r.files[q] == FilesOf(ix, p) + [FileOf(row, cols)];
      }
    }
  }

  /** Every index the loop builds is consistent. */
  lemma {:induction false} IndexRowsConsistent(cols: Columns, rows: seq<seq<string>>, n: nat)
    requires n <= |rows|
    ensures Consistent(IndexRows(cols, rows, n))
  {
    if n > 0 {
      IndexRowsConsistent(cols, rows, n - 1);
      AddRowConsistent(IndexRows(cols, rows, n - 1), cols, rows[n - 1]);
    } else {
      assert ValidTable(EmptyTable);
    }
  }

  /** Some of the first `n` rows registers the file `f`. */
  ghost predicate RegisteredIn(cols: Columns, rows: seq<seq<string>>, n: nat, f: string)
    requires n <= |rows|
  {
    exists k :: 0 <= k < n && Registers(rows[k], cols) && FileOf(rows[k], cols) == f
  }

  /** A file is indexed exactly when some data row registers it. */
  lemma {:induction false} IndexedFiles(cols: Columns, rows: seq<seq<string>>, n: nat, f: string)
    requires n <= |rows|
    ensures f in IndexRows(cols, rows, n).prompts.at <==> RegisteredIn(cols, rows, n, f)
  {
    if n > 0 {
      IndexedFiles(cols, rows, n - 1, f);
      if RegisteredIn(cols, rows, n, f) && !RegisteredIn(cols, rows, n - 1, f) {
        var k :| 0 <= k < n && Registers(rows[k], cols) && FileOf(rows[k], cols) == f;
        assert k == n - 1;
      }
    }
  }

  /** The prompt and model recorded for a file are those of the last row
      that registers it. */
  lemma {:induction false} LastRowWins(cols: Columns, rows: seq<seq<string>>, n: nat, k: nat)
    requires k < n <= |rows| && Registers(rows[k], cols)
    requires forall j :: k < j < n && Registers(rows[j], cols) ==> FileOf(rows[j], cols) != FileOf(rows[k], cols)
    ensures var ix := IndexRows(cols, rows, n);
      var f := FileOf(rows[k], cols);
      && f in ix.prompts.at && ix.prompts.at[f] == PromptOf(rows[k], cols)
      && f in ix.models && ix.models[f] == ModelOf(rows[k], cols)
  {
    var f := FileOf(rows[k], cols);
    if k < n - 1 {
      LastRowWins(cols, rows, n - 1, k);
      AddRowKeeps(IndexRows(cols, rows, n - 1), cols, rows[n - 1], f);
    }
  }

  /** A row that does not register `f` leaves its prompt and model alone. */
  lemma AddRowKeeps(ix: FileIndex, cols: Columns, row: seq<string>, f: string)
    requires !Registers(row, cols) || FileOf(row, cols) != f
    ensures var r := AddRow(ix, cols, row);
      && (f in r.prompts.at <==> f in ix.prompts.at)
      && (f in ix.prompts.at ==> r.prompts.at[f] == ix.prompts.at[f])
      && (f in r.models <==> f in ix.models)
      && (f in ix.models ==> r.models[f] == ix.models[f])
  {
  }

  // ---------------------------------------------------------------------
  // The partner of a file

  /** `files.find(file => file !== fileName && modelByFile[file] !== currentModel)`. */
  function FirstPartner(files: seq<string>, fileName: string, current: Option<string>,
                        models: map<string, string>): Option<string>
  {
    if |files| == 0 then None
    else if files[0] != fileName && Get(models, files[0]) != current then Some(files[0])
    else FirstPartner(files[1..], fileName, current, models)
  }

  /** The file found is listed, has another name and another model, and
      every file listed before it fails one of the two tests; no file is
      found exactly when every listed file fails. */
  lemma {:induction false} FirstPartnerMeaning(files: seq<string>, fileName: string, current: Option<string>,
                                               models: map<string, string>)
    ensures var r := FirstPartner(files, fileName, current, models);
      && (r.Some? ==> r.value in files && r.value != fileName && Get(models, r.value) != current)
      && (r.None? <==> forall j :: 0 <= j < |files| ==> files[j] == fileName || Get(models, files[j]) == current)
      && (r.Some? ==> exists j :: (0 <= j < |files| && files[j] == r.value &&
            forall i :: 0 <= i < j ==> files[i] == fileName || Get(models, files[i]) == current))
  {
    if |files| > 0 && !(files[0] != fileName && Get(models, files[0]) != current) {
      var r := FirstPartner(files[1..], fileName, current, models);
      FirstPartnerMeaning(files[1..], fileName, current, models);
      assert forall j :: 1 <= j < |files| ==> files[j] == files[1..][j - 1];
      if r.Some? {
        var j :| 0 <= j < |files[1..]| && files[1..][j] == r.value &&
          forall i :: 0 <= i < j ==> files[1..][i] == fileName || Get(models, files[1..][i]) == current;
        assert files[j + 1] == r.value;
      }
    }
  }

  /** The file associated with `fileName` in the all-files loop of
      scripts/fixImagePairs.mjs: the first file listed under its prompt
      with another name and another model. */
  function Associated(ix: FileIndex, fileName: string): (r: Option<string>)
  {
    var prompt := Get(ix.prompts.at, fileName);
    var files := if prompt.Some? then FilesOf(ix, prompt.value) else [];
    FirstPartner(files, fileName, Get(ix.models, fileName), ix.models)
  }

  /** In a consistent index, the associated file is an indexed file with
      another name and another model, once listed under the same prompt;
      there is none exactly when no file listed under the prompt qualifies. */
  lemma AssociatedMeaning(ix: FileIndex, f: string)
    requires Consistent(ix) && f in ix.prompts.at
    ensures var r := Associated(ix, f);
      var listed := FilesOf(ix, ix.prompts.at[f]);
      && (r.Some? ==> r.value in listed && r.value in ix.prompts.at && r.value != f &&
                      ix.models[r.value] != ix.models[f] && r.value != "")
      && (r.None? <==> forall g :: g in listed ==> g == f || ix.models[g] == ix.models[f])
  {
    var listed := FilesOf(ix, ix.prompts.at[f]);
    var r := Associated(ix, f);
    FirstPartnerMeaning(listed, f, Get(ix.models, f), ix.models);
    if r.Some? {
      assert r.value in ix.prompts.at;
    }
    if r.None? {
      forall g | g in listed
        ensures g == f || ix.models[g] == ix.models[f]
      {
        var j :| 0 <= j < |listed| && listed[j] == g;
        assert g in ix.prompts.at;
      }
    }
  }

  /** The script's truth test on the associated file is the test for a
      value: listed files are never empty names. */
  lemma AssociatedTruthy(ix: FileIndex, f: string)
    requires Consistent(ix)
    ensures Truthy(Associated(ix, f)) <==> Associated(ix, f).Some?
  {
    var r := Associated(ix, f);
    var prompt := Get(ix.prompts.at, f);
    var files := if prompt.Some? then FilesOf(ix, prompt.value) else [];
    FirstPartnerMeaning(files, f, Get(ix.models, f), ix.models);
    if r.Some? {
      assert r.value in FilesOf(ix, prompt.value);
      assert r.value in ix.prompts.at;
    }
  }
}
