/** The pairing of scripts/fixImagePairs.mjs: every indexed file either has
    an associated file or is paired by hand with a file of the most similar
    prompt, and a fixed list of known pairs overrides the result. */
module ManualPairs {
  import opened Wrappers
  import opened Strings
  import opened Sequences
  import opened Prompts
  import opened Csv
  import opened ImageIndex
  import opened Similarity

  // ---------------------------------------------------------------------
  // Files with and without an associated file

  /** `associatedFiles` and `filesWithoutPairs`. */
  datatype Partition = Partition(associated: map<string, string>, withoutPairs: seq<string>)

  /** The `forEach` over the first `n` keys of `promptByFile`, with `assoc`
      for the search of an associated file. */
  function ClassifyWith(keys: seq<string>, assoc: string -> Option<string>, n: nat): Partition
    requires n <= |keys|
  {
    if n == 0 then Partition(map[], [])
    else
      var part := ClassifyWith(keys, assoc, n - 1);
      var f := keys[n - 1];
      if Truthy(assoc(f)) then part.(associated := part.associated[f := assoc(f).value])
      else part.(withoutPairs := part.withoutPairs + [f])
  }

  /** The search of the file associated with a file, as a closure over the
      index. */
  function AssociatedOn(ix: FileIndex): string -> Option<string> {
    f => Associated(ix, f)
  }

  /** `associatedFiles` and `filesWithoutPairs` of an index. */
  function Classify(ix: FileIndex): Partition {
    ClassifyWith(ix.prompts.keys, AssociatedOn(ix), |ix.prompts.keys|)
  }

  /** What the first `n` keys leave in the two collections: a key is in
      `associatedFiles`, with its associated file, exactly when it has one;
      otherwise it is in `filesWithoutPairs`, once. */
  ghost predicate ClassifiedUpTo(keys: seq<string>, assoc: string -> Option<string>, n: nat, part: Partition)
    requires n <= |keys|
  {
    && (forall f :: f in part.associated <==> f in keys[..n] && Truthy(assoc(f)))
    && (forall f :: f in part.associated ==> part.associated[f] == assoc(f).value)
    && (forall f :: f in part.withoutPairs <==> f in keys[..n] && !Truthy(assoc(f)))
    && Distinct(part.withoutPairs)
  }

  lemma {:induction false} ClassifyWithMeaning(keys: seq<string>, assoc: string -> Option<string>, n: nat)
    requires n <= |keys| && Distinct(keys)
    ensures ClassifiedUpTo(keys, assoc, n, ClassifyWith(keys, assoc, n))
  {
    if n > 0 {
      ClassifyWithMeaning(keys, assoc, n - 1);
      ClassifyStep(keys, assoc, n, ClassifyWith(keys, assoc, n - 1), ClassifyWith(keys, assoc, n));
    }
  }

  lemma ClassifyStep(keys: seq<string>, assoc: string -> Option<string>, n: nat, part: Partition, next: Partition)
    requires 0 < n <= |keys| && Distinct(keys)
    requires ClassifiedUpTo(keys, assoc, n - 1, part)
    requires var f := keys[n - 1];
      next == if Truthy(assoc(f)) then part.(associated := part.associated[f := assoc(f).value])
              else part.(withoutPairs := part.withoutPairs + [f])
    ensures ClassifiedUpTo(keys, assoc, n, next)
  {
    assert keys[..n] == keys[..n - 1] + [keys[n - 1]];
    assert keys[n - 1] !in keys[..n - 1];
  }

  /** Every indexed file is in `associatedFiles`, with its associated file,
      when it has one, and otherwise in `filesWithoutPairs`, once. */
  lemma ClassifyMeaning(ix: FileIndex)
    requires ValidTable(ix.prompts)
    ensures var part := Classify(ix);
      && (forall f :: f in part.associated <==> f in ix.prompts.at && Associated(ix, f).Some? && Associated(ix, f).value != "")
      && (forall f :: f in part.associated ==> part.associated[f] == Associated(ix, f).value)
      && (forall f :: f in part.withoutPairs <==> f in ix.prompts.at && !Truthy(Associated(ix, f)))
      && Distinct(part.withoutPairs)
  {
    var keys := ix.prompts.keys;
    ClassifyWithMeaning(keys, AssociatedOn(ix), |keys|);
    assert keys[..|keys|] == keys;
  }

  // ---------------------------------------------------------------------
  // Pairs made by hand

  /** `manualPairs[fileName] = match; manualPairs[match] = fileName`, with `partner` for `match`. */
  function AddManualPair(m: map<string, string>, f: string, partner: string): (r: map<string, string>)
    ensures partner in r && r[partner] == f
    ensures f in r && (f != partner ==> r[f] == partner)
    ensures forall k :: k != f && k != partner ==> (k in r <==> k in m) && (k in m ==> r[k] == m[k])
  {
    m[f := partner][partner := f]
  }

  /** The second pair takes over a file of the first, so the first file's
      link is no longer returned: pairs made by hand need not be mutual. */
  lemma LaterPairOverwrites()
    ensures var m := AddManualPair(AddManualPair(map[], "a", "b"), "c", "b");
      m["a"] == "b" && m["b"] == "c"
  {
  }

  /** `filesByPrompt[p].filter(f => modelByFile[f] !== model)`. */
  function OtherModel(files: seq<string>, model: Option<string>, models: map<string, string>): seq<string>
  {
    if |files| == 0 then []
    else if Get(models, files[0]) != model then [files[0]] + OtherModel(files[1..], model, models)
    else OtherModel(files[1..], model, models)
  }

  /** The filter keeps exactly the files of another model, and its first
      file is the first such file of the list. */
  lemma OtherModelMeaning(files: seq<string>, model: Option<string>, models: map<string, string>)
    ensures var r := OtherModel(files, model, models);
      && (forall g :: g in r <==> g in files && Get(models, g) != model)
      && (|r| > 0 ==> exists j :: (0 <= j < |files| && files[j] == r[0] &&
            forall i :: 0 <= i < j ==> Get(models, files[i]) == model))
  {
    OtherModelMembers(files, model, models);
    OtherModelFirst(files, model, models);
  }

  lemma {:induction false} OtherModelMembers(files: seq<string>, model: Option<string>, models: map<string, string>)
    ensures forall g :: g in OtherModel(files, model, models) <==> g in files && Get(models, g) != model
  {
    if |files| > 0 {
      OtherModelMembers(files[1..], model, models);
      assert forall g :: g in files <==> g == files[0] || g in files[1..] by {
        assert files == [files[0]] + files[1..];
      }
    }
  }

  lemma {:induction false} OtherModelFirst(files: seq<string>, model: Option<string>, models: map<string, string>)
    ensures var r := OtherModel(files, model, models);
      |r| > 0 ==> exists j :: (0 <= j < |files| && files[j] == r[0] &&
        forall i :: 0 <= i < j ==> Get(models, files[i]) == model)
  {
    if |files| > 0 {
      var rest := OtherModel(files[1..], model, models);
      OtherModelFirst(files[1..], model, models);
      if Get(models, files[0]) != model {
        assert OtherModel(files, model, models)[0] == files[0];
      } else if |rest| > 0 {
        var j :| 0 <= j < |files[1..]| && files[1..][j] == rest[0] &&
          forall i :: 0 <= i < j ==> Get(models, files[1..][i]) == model;
        assert files[j + 1] == rest[0];
        assert forall i :: 1 <= i < j + 1 ==> files[i] == files[1..][i - 1];
      }
    }
  }

  /** `allPrompts`: the prompts of the indexed files, in key order, once each. */
  function AllPrompts(ix: FileIndex): seq<string>
    requires ValidTable(ix.prompts)
  {
    Dedup(PromptValues(ix))
  }

  /** `Object.values(promptByFile)`. */
  function PromptValues(ix: FileIndex): (r: seq<string>)
    requires ValidTable(ix.prompts)
    ensures |r| == |ix.prompts.keys|
    ensures forall i :: 0 <= i < |r| ==> ix.prompts.keys[i] in ix.prompts.at && r[i] == ix.prompts.at[ix.prompts.keys[i]]
  {
    seq(|ix.prompts.keys|, i requires 0 <= i < |ix.prompts.keys| => ix.prompts.at[ix.prompts.keys[i]])
  }

  /** Every prompt of `allPrompts` is the prompt of an indexed file, and
      every indexed file's prompt is there. */
  lemma AllPromptsMeaning(ix: FileIndex)
    requires ValidTable(ix.prompts)
    ensures forall p :: p in AllPrompts(ix) <==> exists f :: f in ix.prompts.at && ix.prompts.at[f] == p
  {
    var keys := ix.prompts.keys;
    var values := PromptValues(ix);
    DedupMeaning(values);
    forall p
      ensures p in values <==> exists f :: f in ix.prompts.at && ix.prompts.at[f] == p
    {
      if exists f :: f in ix.prompts.at && ix.prompts.at[f] == p {
        var f :| f in ix.prompts.at && ix.prompts.at[f] == p;
        var i :| 0 <= i < |keys| && keys[i] == f;
        assert values[i] == p;
      }
      if p in values {
        var i :| 0 <= i < |keys| && values[i] == p;
      }
    }
  }

  /** The body of the `forEach` over `filesWithoutPairs`: a file is paired
      with the first file of another model listed under the most similar
      prompt, when that prompt scores above one half. */
  function PairByHand(ix: FileIndex, allPrompts: seq<string>, m: map<string, string>, f: string): map<string, string>
  {
    var prompt := Get(ix.prompts.at, f);
    var model := Get(ix.models, f);
    if !Truthy(prompt) then m
    else
      var best := MostSimilar(prompt.value, allPrompts);
      if Truthy(best.prompt) && best.score > 0.5 then
        var potential := OtherModel(FilesOf(ix, best.prompt.value), model, ix.models);
        if |potential| > 0 then AddManualPair(m, f, potential[0]) else m
      else m
  }

  /** `manualPairs` after the first `n` files without a pair. */
  function PairAllByHand(ix: FileIndex, allPrompts: seq<string>, without: seq<string>, n: nat): map<string, string>
    requires n <= |without|
  {
    if n == 0 then map[]
    else PairByHand(ix, allPrompts, PairAllByHand(ix, allPrompts, without, n - 1), without[n - 1])
  }

  /** Every link joins two indexed files of different models. */
  ghost predicate LinksOtherModels(ix: FileIndex, m: map<string, string>) {
    forall a :: a in m ==> a in ix.models && m[a] in ix.models && ix.models[a] != ix.models[m[a]]
  }

  /** One file paired by hand keeps every link between indexed files of
      different models. */
  lemma PairByHandLinks(ix: FileIndex, allPrompts: seq<string>, m: map<string, string>, f: string)
    requires Consistent(ix) && LinksOtherModels(ix, m)
    ensures LinksOtherModels(ix, PairByHand(ix, allPrompts, m, f))
  {
    var prompt := Get(ix.prompts.at, f);
    if Truthy(prompt) {
      var best := MostSimilar(prompt.value, allPrompts);
      if Truthy(best.prompt) && best.score > 0.5 {
        var model := Get(ix.models, f);
        var potential := OtherModel(FilesOf(ix, best.prompt.value), model, ix.models);
        if |potential| > 0 {
          var g := potential[0];
          OtherModelMeaning(FilesOf(ix, best.prompt.value), model, ix.models);
          assert g in potential;
          assert g in FilesOf(ix, best.prompt.value);
          assert g in ix.prompts.at;
          var r := AddManualPair(m, f, g);
          assert ix.models[g] != ix.models[f];
          forall a | a in r
            ensures a in ix.models && r[a] in ix.models && ix.models[a] != ix.models[r[a]]
          {
          }
        }
      }
    }
  }

  /** Whatever the files without a pair and the list of prompts, the pairs
      made by hand link indexed files of different models. */
  lemma {:induction false} PairAllByHandLinks(ix: FileIndex, allPrompts: seq<string>, without: seq<string>, n: nat)
    requires Consistent(ix) && n <= |without|
    ensures LinksOtherModels(ix, PairAllByHand(ix, allPrompts, without, n))
  {
    if n > 0 {
      PairAllByHandLinks(ix, allPrompts, without, n - 1);
      PairByHandLinks(ix, allPrompts, PairAllByHand(ix, allPrompts, without, n - 1), without[n - 1]);
    }
  }

  /** The most similar prompt is a prompt of the index, so the list of its
      files is always there. */
  lemma SimilarPromptListed(ix: FileIndex, target: string)
    requires Consistent(ix)
    ensures var best := MostSimilar(target, AllPrompts(ix));
      best.prompt.Some? ==> best.prompt.value in ix.files
  {
    var all := AllPrompts(ix);
    var best := MostSimilar(target, all);
    MostSimilarFromIn(target, all, 0, Best(None, 0.0));
    if best.prompt.Some? {
      AllPromptsMeaning(ix);
      var f :| f in ix.prompts.at && ix.prompts.at[f] == best.prompt.value;
      assert f in FilesOf(ix, best.prompt.value);
    }
  }

  // ---------------------------------------------------------------------
  // Known pairs and the saved result

  /** `knownPairs`: six pairs of files, each listed both ways. */
  const KnownPairs: map<string, string> := map[
    "54.png" := "495.png", "495.png" := "54.png",
    "17.png" := "462.png", "462.png" := "17.png",
    "19.png" := "236.png", "236.png" := "19.png",
    "32.png" := "268.png", "268.png" := "32.png",
    "34.png" := "330.png", "330.png" := "34.png",
    "61.png" := "507.png", "507.png" := "61.png"
  ]

  /** Every known pair is listed both ways. */
  lemma KnownPairsMutual()
    ensures forall k :: k in KnownPairs ==> KnownPairs[k] in KnownPairs && KnownPairs[KnownPairs[k]] == k
  {
    forall k | k in KnownPairs
      ensures KnownPairs[k] in KnownPairs && KnownPairs[KnownPairs[k]] == k
    {
      if k == "54.png" || k == "495.png" { assert KnownPairs["54.png"] == "495.png" && KnownPairs["495.png"] == "54.png"; }
      else if k == "17.png" || k == "462.png" { assert KnownPairs["17.png"] == "462.png" && KnownPairs["462.png"] == "17.png"; }
      else if k == "19.png" || k == "236.png" { assert KnownPairs["19.png"] == "236.png" && KnownPairs["236.png"] == "19.png"; }
      else if k == "32.png" || k == "268.png" { assert KnownPairs["32.png"] == "268.png" && KnownPairs["268.png"] == "32.png"; }
      else if k == "34.png" || k == "330.png" { assert KnownPairs["34.png"] == "330.png" && KnownPairs["330.png"] == "34.png"; }
      else { assert KnownPairs["61.png"] == "507.png" && KnownPairs["507.png"] == "61.png"; }
    }
  }

  /** Every known pair names a file. */
  lemma KnownPairsNamed(f: string)
    ensures f in KnownPairs ==> KnownPairs[f] != ""
  {
    KnownPairsMutual();
    assert "" !in KnownPairs;
  }

  /** `{ ...manualPairs, ...knownPairs }`: a known pair wins over a pair made
      by hand for the same file. */
  function FinalPairs(manual: map<string, string>): (r: map<string, string>)
    ensures forall k :: k in r <==> k in manual || k in KnownPairs
    ensures forall k :: k in KnownPairs ==> r[k] == KnownPairs[k]
    ensures forall k :: k in manual && k !in KnownPairs ==> r[k] == manual[k]
  {
    manual + KnownPairs
  }

  /** The whole script on the text of the sample table, read with the
      corrected CSV reader (`Csv.ParseCsv`): `None` where it stops for a
      missing column, otherwise the pairs it saves. */
  function FixImagePairs(text: string): Option<map<string, string>>
  {
    var rows := ParseCsv(text);
    var cols := ReadColumns(rows);
    if cols.None? then None
    else
      var ix := BuildIndex(cols.value, rows);
      IndexRowsConsistent(cols.value, rows[1..], |rows| - 1);
      var part := Classify(ix);
      Some(FinalPairs(PairAllByHand(ix, AllPrompts(ix), part.withoutPairs, |part.withoutPairs|)))
  }

  /** The saved pairs: the script stops exactly when a column is missing,
      and apart from the known pairs every saved link joins two files of
      the table with different models. */
  lemma FixImagePairsMeaning(text: string)
    ensures var rows := ParseCsv(text);
      && (FixImagePairs(text).None? <==> ReadColumns(rows).None?)
      && (FixImagePairs(text).Some? ==>
            var ix := BuildIndex(ReadColumns(rows).value, rows);
            forall k :: k in FixImagePairs(text).value && k !in KnownPairs ==>
              var g := FixImagePairs(text).value[k];
              k in ix.models && g in ix.models && ix.models[k] != ix.models[g])
  {
    var rows := ParseCsv(text);
    var cols := ReadColumns(rows);
    if cols.Some? {
      var ix := BuildIndex(cols.value, rows);
      IndexRowsConsistent(cols.value, rows[1..], |rows| - 1);
      var part := Classify(ix);
      PairAllByHandLinks(ix, AllPrompts(ix), part.withoutPairs, |part.withoutPairs|);
    }
  }

  /** The saved pairs keep every known pair as it is. */
  lemma FixKeepsKnown(text: string)
    ensures FixImagePairs(text).Some? ==>
      forall k :: k in KnownPairs ==> k in FixImagePairs(text).value && FixImagePairs(text).value[k] == KnownPairs[k]
  {
  }
}
