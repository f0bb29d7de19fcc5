/**
 The manifest differ of `compare_hash`: every old entry is looked up by name in
 the new manifest (first match wins) and sorted into changed, removed or neither;
 every new entry whose name is nowhere in the old manifest is added. Reading and
 writing the JSON files is not part of this model; the manifests are inputs.
 */
module Hash {
  import opened Common
  import opened MapStruct

  /** The names of a manifest's entries, in list order. */
  function Names(files: seq<HashOutput>): (ns: seq<string>)
    ensures |ns| == |files|
    ensures forall i :: 0 <= i < |files| ==> ns[i] == files[i].fileName
  {
    if files == [] then [] else [files[0].fileName] + Names(files[1..])
  }

  /** No two entries of the manifest share a name (what a directory walk yields). */
  ghost predicate UniqueNames(files: seq<HashOutput>)
  {
    forall i, j :: 0 <= i < |files| && 0 <= j < |files| && i != j ==>
      files[i].fileName != files[j].fileName
  }

  /** `xs` can be obtained from `ys` by deleting elements: same relative order. */
  ghost predicate IsSubsequence<T>(xs: seq<T>, ys: seq<T>)
    decreases |ys|
  {
    if xs == [] then true
    else if ys == [] then false
    else if xs[0] == ys[0] then IsSubsequence(xs[1..], ys[1..])
    else IsSubsequence(xs, ys[1..])
  }

  /** `iter().find(|e| e.file_name == name)`: the first entry carrying `name`. */
  function Find(files: seq<HashOutput>, name: string): (r: Option<HashOutput>)
    ensures r.None? <==> name !in Names(files)
    ensures r.Some? ==> exists i :: 0 <= i < |files| && files[i] == r.value
                          && r.value.fileName == name
                          && forall j :: 0 <= j < i ==> files[j].fileName != name
  {
    if files == [] then None
    else if files[0].fileName == name then Some(files[0])
    else
      var r := Find(files[1..], name);
      assert Names(files) == [files[0].fileName] + Names(files[1..]);
      if r.Some? then
        var i :| 0 <= i < |files[1..]| && files[1..][i] == r.value
                 && r.value.fileName == name
                 && forall j :: 0 <= j < i ==> files[1..][j].fileName != name;
        assert files[i + 1] == r.value;
        assert forall j :: 0 <= j < i + 1 ==> files[j].fileName != name by {
          forall j | 0 <= j < i + 1
            ensures files[j].fileName != name
          {
            if j > 0 {
              assert files[j] == files[1..][j - 1];
            }
          }
        }
        r
      else
        r
  }

  /** `iter().any(|e| e.file_name == name)`. */
  function AnyNamed(files: seq<HashOutput>, name: string): (b: bool)
    ensures b <==> name in Names(files)
  {
    if files == [] then false
    else
      assert Names(files) == [files[0].fileName] + Names(files[1..]);
      files[0].fileName == name || AnyNamed(files[1..], name)
  }

  /** What the first loop of `compare_hash` does with one old entry. */
  datatype Verdict = Unchanged | Changed | Removed

  function Classify(entry: HashOutput, news: seq<HashOutput>): (v: Verdict)
  {
    match Find(news, entry.fileName)
    case None => Removed
    case Some(n) => if n.hash != entry.hash then Changed else Unchanged
  }

  /** Some entry of `olds` named `x` receives verdict `v`. */
  ghost predicate HasVerdict(olds: seq<HashOutput>, news: seq<HashOutput>, x: string, v: Verdict)
  {
    exists i :: 0 <= i < |olds| && olds[i].fileName == x && Classify(olds[i], news) == v
  }

  /** The names the first loop pushes onto `changed_files`. */
  function ChangedFiles(olds: seq<HashOutput>, news: seq<HashOutput>): (r: seq<string>)
    ensures forall x :: x in r <==> HasVerdict(olds, news, x, Changed)
    ensures forall x :: x in r ==> x in Names(olds) && x in Names(news)
    ensures IsSubsequence(r, Names(olds))
  {
    if olds == [] then []
    else
      var rest := ChangedFiles(olds[1..], news);
      var r := match Find(news, olds[0].fileName)
               case Some(n) => if n.hash != olds[0].hash then [n.fileName] + rest else rest
               case None => rest;
      assert Names(olds) == [olds[0].fileName] + Names(olds[1..]);
      ShiftWitness(olds, news, Changed);
      if r == rest then SubsequenceCons(rest, olds[0].fileName, Names(olds[1..])); r
      else r
  }

  /** The names the first loop pushes onto `removed_files`. */
  function RemovedFiles(olds: seq<HashOutput>, news: seq<HashOutput>): (r: seq<string>)
    ensures forall x :: x in r <==> x in Names(olds) && x !in Names(news)
    ensures IsSubsequence(r, Names(olds))
  {
    if olds == [] then []
    else
      var rest := RemovedFiles(olds[1..], news);
      var r := match Find(news, olds[0].fileName)
               case Some(_) => rest
               case None => [olds[0].fileName] + rest;
      assert Names(olds) == [olds[0].fileName] + Names(olds[1..]);
      if r == rest then SubsequenceCons(rest, olds[0].fileName, Names(olds[1..])); r
      else r
  }

  /** The names the second loop pushes onto `added_files`. */
  function AddedFiles(news: seq<HashOutput>, olds: seq<HashOutput>): (r: seq<string>)
    ensures forall x :: x in r <==> x in Names(news) && x !in Names(olds)
    ensures IsSubsequence(r, Names(news))
  {
    if news == [] then []
    else
      var rest := AddedFiles(news[1..], olds);
      var r := if !AnyNamed(olds, news[0].fileName) then [news[0].fileName] + rest else rest;
      assert Names(news) == [news[0].fileName] + Names(news[1..]);
      if r == rest then SubsequenceCons(rest, news[0].fileName, Names(news[1..])); r
      else r
  }

  /** `compare_hash` without the JSON reading and writing. */
  function CompareHash(oldManifest: FileStructure, newManifest: FileStructure): (m: PatchMapStructure)
    ensures m.version == (oldManifest.version, newManifest.version)
    ensures forall x :: x in m.changedFiles <==>
      HasVerdict(oldManifest.files, newManifest.files, x, Changed)
    ensures forall x :: x in m.changedFiles ==>
      x in Names(oldManifest.files) && x in Names(newManifest.files)
    ensures forall x :: x in m.removedFiles <==>
      x in Names(oldManifest.files) && x !in Names(newManifest.files)
    ensures forall x :: x in m.addedFiles <==>
      x in Names(newManifest.files) && x !in Names(oldManifest.files)
    ensures forall x :: !(x in m.changedFiles && x in m.removedFiles)
    ensures forall x :: !(x in m.changedFiles && x in m.addedFiles)
    ensures forall x :: !(x in m.removedFiles && x in m.addedFiles)
  {
    var m := NewPatchMap(oldManifest.version, newManifest.version);
    m.(changedFiles := ChangedFiles(oldManifest.files, newManifest.files),
       removedFiles := RemovedFiles(oldManifest.files, newManifest.files),
       addedFiles := AddedFiles(newManifest.files, oldManifest.files))
  }

  // ---------------------------------------------------------------------------
  // The loops append: processing one more entry adds at most its own name at the end.

  lemma {:induction false} ChangedFilesAppend(olds: seq<HashOutput>, e: HashOutput, news: seq<HashOutput>)
    ensures ChangedFiles(olds + [e], news)
         == ChangedFiles(olds, news) + (if Classify(e, news) == Changed then [e.fileName] else [])
    decreases |olds|
  {
    if olds == [] {
      assert [e][1..] == [];
    } else {
      assert (olds + [e])[1..] == olds[1..] + [e];
      ChangedFilesAppend(olds[1..], e, news);
    }
  }

  lemma {:induction false} RemovedFilesAppend(olds: seq<HashOutput>, e: HashOutput, news: seq<HashOutput>)
    ensures RemovedFiles(olds + [e], news)
         == RemovedFiles(olds, news) + (if Classify(e, news) == Removed then [e.fileName] else [])
    decreases |olds|
  {
    if olds == [] {
      assert [e][1..] == [];
    } else {
      assert (olds + [e])[1..] == olds[1..] + [e];
      RemovedFilesAppend(olds[1..], e, news);
    }
  }

  lemma {:induction false} AddedFilesAppend(news: seq<HashOutput>, e: HashOutput, olds: seq<HashOutput>)
    ensures AddedFiles(news + [e], olds)
         == AddedFiles(news, olds) + (if e.fileName !in Names(olds) then [e.fileName] else [])
    decreases |news|
  {
    if news == [] {
      assert [e][1..] == [];
    } else {
      assert (news + [e])[1..] == news[1..] + [e];
      AddedFilesAppend(news[1..], e, olds);
    }
  }

  // ---------------------------------------------------------------------------
  // The verdict of one entry.

  /** With duplicate names in the new manifest, the hash compared is that of the
      first new entry carrying the old entry's name. */
  lemma ClassifyUsesFirstMatch(entry: HashOutput, news: seq<HashOutput>, k: nat)
    requires k < |news| && news[k].fileName == entry.fileName
    requires forall j :: 0 <= j < k ==> news[j].fileName != entry.fileName
    ensures Classify(entry, news) == (if news[k].hash != entry.hash then Changed else Unchanged)
  {
    var r := Find(news, entry.fileName);
    assert news[k].fileName in Names(news);
    var i :| 0 <= i < |news| && news[i] == r.value && r.value.fileName == entry.fileName
             && forall j :: 0 <= j < i ==> news[j].fileName != entry.fileName;
    assert i == k;
  }

  /** In a manifest with unique names, every entry finds itself. */
  lemma FindSelf(files: seq<HashOutput>, k: nat)
    requires UniqueNames(files) && k < |files|
    ensures Find(files, files[k].fileName) == Some(files[k])
  {
    ClassifyUsesFirstMatch(files[k], files, k);
    var r := Find(files, files[k].fileName);
    var i :| 0 <= i < |files| && files[i] == r.value && r.value.fileName == files[k].fileName
             && forall j :: 0 <= j < i ==> files[j].fileName != files[k].fileName;
    assert i == k;
  }

  /** Some old and some new entry carry the name `x` with different hashes. */
  ghost predicate HashesDiffer(olds: seq<HashOutput>, news: seq<HashOutput>, x: string)
  {
    exists i, j :: 0 <= i < |olds| && 0 <= j < |news|
      && olds[i].fileName == x && news[j].fileName == x && olds[i].hash != news[j].hash
  }

  /** When the new manifest has unique names, `changed` holds exactly the names present in
      both whose hashes differ. */
  lemma ChangedIffHashDiffers(oldManifest: FileStructure, newManifest: FileStructure, x: string)
    requires UniqueNames(newManifest.files)
    ensures x in CompareHash(oldManifest, newManifest).changedFiles <==>
      HashesDiffer(oldManifest.files, newManifest.files, x)
  {
    var olds, news := oldManifest.files, newManifest.files;
    if x in ChangedFiles(olds, news) {
      ChangedHasDifferingHashes(olds, news, x);
    }
    if HashesDiffer(olds, news, x) {
      var i, j :| 0 <= i < |olds| && 0 <= j < |news|
        && olds[i].fileName == x && news[j].fileName == x && olds[i].hash != news[j].hash;
      FindSelf(news, j);
      assert Classify(olds[i], news) == Changed;
      assert HasVerdict(olds, news, x, Changed);
    }
  }

  lemma ChangedHasDifferingHashes(olds: seq<HashOutput>, news: seq<HashOutput>, x: string)
    requires x in ChangedFiles(olds, news)
    ensures HashesDiffer(olds, news, x)
  {
    var i :| 0 <= i < |olds| && olds[i].fileName == x && Classify(olds[i], news) == Changed;
    var n := Find(news, x).value;
    var j :| 0 <= j < |news| && news[j] == n && n.fileName == x
             && forall l :: 0 <= l < j ==> news[l].fileName != x;
    assert olds[i].hash != news[j].hash;
  }

  /** Comparing a manifest with unique names against itself yields an empty change set. */
  lemma IdenticalManifestsYieldNoChanges(files: seq<HashOutput>, oldVersion: string, newVersion: string)
    requires UniqueNames(files)
    ensures CompareHash(FileStructure(oldVersion, files), FileStructure(newVersion, files))
         == NewPatchMap(oldVersion, newVersion)
  {
    var m := CompareHash(FileStructure(oldVersion, files), FileStructure(newVersion, files));
    if m.changedFiles != [] {
      assert m.changedFiles[0] in m.changedFiles;
      var i :| 0 <= i < |files| && files[i].fileName == m.changedFiles[0]
               && Classify(files[i], files) == Changed;
      FindSelf(files, i);
      assert false;
    }
    NoMemberMeansEmpty(m.removedFiles);
    NoMemberMeansEmpty(m.addedFiles);
  }

  /** The unique-names requirement above is needed: an old entry is compared with the
      FIRST new entry of its name, so a list repeating a name with two hashes reports
      that name as changed even when compared with itself. */
  lemma DuplicateNamesReportChangedAgainstItself()
    ensures var files := [HashOutput("a.dds", "h1"), HashOutput("a.dds", "h2")];
            CompareHash(FileStructure("1", files), FileStructure("2", files)).changedFiles == ["a.dds"]
  {
    var files := [HashOutput("a.dds", "h1"), HashOutput("a.dds", "h2")];
    assert files[1..] == [HashOutput("a.dds", "h2")];
    assert files[1..][1..] == [];
  }

  /** Disjoint manifests: every old name is removed and every new name added. */
  lemma DisjointManifests(oldManifest: FileStructure, newManifest: FileStructure)
    requires forall x :: x in Names(oldManifest.files) ==> x !in Names(newManifest.files)
    ensures CompareHash(oldManifest, newManifest).changedFiles == []
    ensures CompareHash(oldManifest, newManifest).removedFiles == Names(oldManifest.files)
    ensures CompareHash(oldManifest, newManifest).addedFiles == Names(newManifest.files)
  {
    RemovedAllWhenAbsent(oldManifest.files, newManifest.files);
    AddedAllWhenAbsent(newManifest.files, oldManifest.files);
    NoMemberMeansEmpty(CompareHash(oldManifest, newManifest).changedFiles);
  }

  lemma {:induction false} RemovedAllWhenAbsent(olds: seq<HashOutput>, news: seq<HashOutput>)
    requires forall x :: x in Names(olds) ==> x !in Names(news)
    ensures RemovedFiles(olds, news) == Names(olds)
    decreases |olds|
  {
    if olds != [] {
      assert Names(olds) == [olds[0].fileName] + Names(olds[1..]);
      RemovedAllWhenAbsent(olds[1..], news);
    }
  }

  lemma {:induction false} AddedAllWhenAbsent(news: seq<HashOutput>, olds: seq<HashOutput>)
    requires forall x :: x in Names(news) ==> x !in Names(olds)
    ensures AddedFiles(news, olds) == Names(news)
    decreases |news|
  {
    if news != [] {
      assert Names(news) == [news[0].fileName] + Names(news[1..]);
      AddedAllWhenAbsent(news[1..], olds);
    }
  }

  // ---------------------------------------------------------------------------
  // Helpers.

  lemma NoMemberMeansEmpty<T>(s: seq<T>)
    requires forall x :: x !in s
    ensures s == []
  {
    if s != [] {
      FirstIsMember(s);
      assert false;
    }
  }

  lemma FirstIsMember<T>(s: seq<T>)
    requires s != []
    ensures s[0] in s
  {
  }

  /** An old entry past the first keeps its verdict when the list loses its head. */
  lemma ShiftWitness(olds: seq<HashOutput>, news: seq<HashOutput>, v: Verdict)
    requires olds != []
    ensures forall x :: HasVerdict(olds, news, x, v) <==>
      (olds[0].fileName == x && Classify(olds[0], news) == v) || HasVerdict(olds[1..], news, x, v)
  {
    forall x | HasVerdict(olds, news, x, v)
      ensures (olds[0].fileName == x && Classify(olds[0], news) == v) || HasVerdict(olds[1..], news, x, v)
    {
      var i :| 0 <= i < |olds| && olds[i].fileName == x && Classify(olds[i], news) == v;
      if i > 0 {
        assert olds[1..][i - 1] == olds[i];
      }
    }
    forall x | HasVerdict(olds[1..], news, x, v)
      ensures HasVerdict(olds, news, x, v)
    {
      var i :| 0 <= i < |olds[1..]| && olds[1..][i].fileName == x && Classify(olds[1..][i], news) == v;
      assert olds[i + 1] == olds[1..][i];
    }
  }

  /** A subsequence stays one when the longer list gains a head. */
  lemma {:induction false} SubsequenceCons<T>(xs: seq<T>, y: T, ys: seq<T>)
    requires IsSubsequence(xs, ys)
    ensures IsSubsequence(xs, [y] + ys)
    decreases |ys|, 1
  {
    if xs != [] && xs[0] == y {
      assert ([y] + ys)[1..] == ys;
      SubsequenceTail(xs, ys);
    } else if xs != [] {
      assert ([y] + ys)[1..] == ys;
    }
  }

  /** Dropping the head of a subsequence keeps it a subsequence. */
  lemma {:induction false} SubsequenceTail<T>(xs: seq<T>, ys: seq<T>)
    requires xs != [] && IsSubsequence(xs, ys)
    ensures IsSubsequence(xs[1..], ys)
    decreases |ys|, 0
  {
    if xs[0] == ys[0] {
      if xs[1..] != [] {
        SubsequenceCons(xs[1..], ys[0], ys[1..]);
        assert [ys[0]] + ys[1..] == ys;
      }
    } else {
      SubsequenceTail(xs, ys[1..]);
      if xs[1..] != [] {
        SubsequenceCons(xs[1..], ys[0], ys[1..]);
        assert [ys[0]] + ys[1..] == ys;
      }
    }
  }
}
