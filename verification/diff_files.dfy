/**
 Delta assembly of `diff_files.rs`. For every changed path, the old and new files
 are diffed into their own slot; a path whose old or new file is missing leaves its
 slot empty. The slots are then written one after another with nothing between them.
 The binary diff algorithm is a parameter `diff(old, new)`, and the tasks are awaited
 one at a time, so the model fills the slots in index order.
 */
module DiffFiles {
  import opened Common
  import opened MapStruct

  // ---------------------------------------------------------------------------
  // Path trimming.

  /** `str::rfind(c)`: the position of the last occurrence of `c`, if any. */
  function LastIndexOf(s: string, c: char): (r: Option<nat>)
    ensures r.None? <==> c !in s
    ensures r.Some? ==> r.value < |s| && s[r.value] == c && c !in s[r.value + 1..]
  {
    if s == [] then None
    else if s[|s| - 1] == c then Some(|s| - 1)
    else
      var r := LastIndexOf(s[..|s| - 1], c);
      assert s == s[..|s| - 1] + [s[|s| - 1]];
      if r.Some? then
        assert s[r.value + 1..] == s[..|s| - 1][r.value + 1..] + [s[|s| - 1]];
        r
      else
        r
  }

  /** `trim_relative_path`: the text after the last backslash; the whole path when it
      has none. A forward slash is not a separator here. */
  function TrimRelativePath(relativePath: string): (r: string)
    ensures |r| <= |relativePath| && r == relativePath[|relativePath| - |r|..]
    ensures '\\' !in r
    ensures '\\' in relativePath ==>
      |r| < |relativePath| && relativePath[|relativePath| - |r| - 1] == '\\'
    ensures '\\' !in relativePath ==> r == relativePath
  {
    match LastIndexOf(relativePath, '\\')
    case Some(lastSlashIdx) => relativePath[lastSlashIdx + 1..]
    case None => relativePath
  }

  /** Trimming an already trimmed path changes nothing. */
  lemma TrimIsIdempotent(relativePath: string)
    ensures TrimRelativePath(TrimRelativePath(relativePath)) == TrimRelativePath(relativePath)
  {
  }

  /** The result is the one suffix that follows a backslash and holds none: any such
      suffix is what the function returns. */
  lemma TrimIsLongestBackslashFreeSuffix(relativePath: string, k: nat)
    requires k < |relativePath| && relativePath[k] == '\\' && '\\' !in relativePath[k + 1..]
    ensures TrimRelativePath(relativePath) == relativePath[k + 1..]
  {
  }

  /** A backslash-separated path loses its folders. */
  lemma TrimDropsBackslashFolders()
    ensures TrimRelativePath("a\\b.dds") == "b.dds"
  {
    TrimIsLongestBackslashFreeSuffix("a\\b.dds", 1);
  }

  /** A forward-slash path is kept whole. */
  lemma TrimKeepsForwardSlashPath()
    ensures TrimRelativePath("a/b.dds") == "a/b.dds"
  {
    assert '\\' !in "a/b.dds";
  }

  // ---------------------------------------------------------------------------
  // Delta assembly.

  /** What slot `i` should hold for path `relativePath`: the diff of its old and new file
      when both exist, nothing otherwise. */
  function SlotFor(fs: FileSystem, folderA: string, folderB: string, relativePath: string,
                   diff: (Bytes, Bytes) -> Bytes): (slot: Bytes)
  {
    var a := JoinPath(folderA, relativePath);
    var b := JoinPath(folderB, relativePath);
    if a in fs && b in fs then diff(fs[a], fs[b]) else []
  }

  /** The loop of `dif_from_map` from index `i` on: a missing old file, then a missing
      new file, skips to the next index; otherwise `spawn_task_async` stores the diff in
      slot `i`. */
  function FillSlots(paths: seq<string>, i: nat, slots: seq<Bytes>, fs: FileSystem,
                     folderA: string, folderB: string, diff: (Bytes, Bytes) -> Bytes): (r: seq<Bytes>)
    requires i <= |paths| == |slots|
    ensures |r| == |paths|
    ensures forall j :: 0 <= j < i ==> r[j] == slots[j]
    ensures forall j :: i <= j < |paths| ==>
      r[j] == (if JoinPath(folderA, paths[j]) in fs && JoinPath(folderB, paths[j]) in fs
               then diff(fs[JoinPath(folderA, paths[j])], fs[JoinPath(folderB, paths[j])])
               else slots[j])
    decreases |paths| - i
  {
    if i == |paths| then slots
    else
      var filePathA := JoinPath(folderA, paths[i]);
      var filePathB := JoinPath(folderB, paths[i]);
      if filePathA !in fs then FillSlots(paths, i + 1, slots, fs, folderA, folderB, diff)
      else if filePathB !in fs then FillSlots(paths, i + 1, slots, fs, folderA, folderB, diff)
      else FillSlots(paths, i + 1, slots[i := diff(fs[filePathA], fs[filePathB])], fs, folderA, folderB, diff)
  }

  /** `combined_data` after the loop: one slot per changed path, slot `i` holding
      exactly what path `i` calls for. */
  function DiffSlots(changedFiles: seq<string>, fs: FileSystem, folderA: string, folderB: string,
                     diff: (Bytes, Bytes) -> Bytes): (slots: seq<Bytes>)
    ensures |slots| == |changedFiles|
    ensures forall i :: 0 <= i < |changedFiles| ==>
      slots[i] == SlotFor(fs, folderA, folderB, changedFiles[i], diff)
  {
    FillSlots(changedFiles, 0, seq(|changedFiles|, _ => []), fs, folderA, folderB, diff)
  }

  /** All slots written back to back. */
  function Concat(slots: seq<Bytes>): (bytes: Bytes)
  {
    if slots == [] then [] else slots[0] + Concat(slots[1..])
  }

  /** The total number of bytes in the slots. */
  function TotalLength(slots: seq<Bytes>): (n: nat)
  {
    if slots == [] then 0 else |slots[0]| + TotalLength(slots[1..])
  }

  /** `dif_from_map`: the contents of `combined.bin`. */
  function DifFromMap(m: PatchMapStructure, fs: FileSystem, folderA: string, folderB: string,
                      diff: (Bytes, Bytes) -> Bytes): (combined: Bytes)
    ensures |combined| == TotalLength(DiffSlots(m.changedFiles, fs, folderA, folderB, diff))
  {
    var slots := DiffSlots(m.changedFiles, fs, folderA, folderB, diff);
    ConcatLength(slots);
    Concat(slots)
  }

  lemma {:induction false} ConcatLength(slots: seq<Bytes>)
    ensures |Concat(slots)| == TotalLength(slots)
  {
    if slots != [] {
      ConcatLength(slots[1..]);
    }
  }

  lemma {:induction false} ConcatAppend(xs: seq<Bytes>, ys: seq<Bytes>)
    ensures Concat(xs + ys) == Concat(xs) + Concat(ys)
  {
    if xs == [] {
      assert xs + ys == ys;
    } else {
      assert (xs + ys)[1..] == xs[1..] + ys;
      ConcatAppend(xs[1..], ys);
    }
  }

  /** The slots are written in index order with no separator or length prefix: the
      output is the earlier slots, then slot `i`, then the later slots. */
  lemma {:induction false} ConcatSplitsAtSlot(slots: seq<Bytes>, i: nat)
    requires i < |slots|
    ensures Concat(slots) == Concat(slots[..i]) + slots[i] + Concat(slots[i + 1..])
  {
    var before, at, after := slots[..i], [slots[i]], slots[i + 1..];
    assert slots == (before + at) + after;
    ConcatAppend(before + at, after);
    ConcatAppend(before, at);
    assert at[1..] == [];
    assert Concat(at) == slots[i];
  }

  /** The diff of changed path `i` sits in `combined.bin` right after the diffs of the
      paths before it; a path with a missing file contributes no bytes. */
  lemma DifFromMapLayout(m: PatchMapStructure, fs: FileSystem, folderA: string, folderB: string,
                         diff: (Bytes, Bytes) -> Bytes, i: nat)
    requires i < |m.changedFiles|
    ensures var slots := DiffSlots(m.changedFiles, fs, folderA, folderB, diff);
      DifFromMap(m, fs, folderA, folderB, diff)
        == Concat(slots[..i]) + SlotFor(fs, folderA, folderB, m.changedFiles[i], diff) + Concat(slots[i + 1..])
  {
    ConcatSplitsAtSlot(DiffSlots(m.changedFiles, fs, folderA, folderB, diff), i);
  }

  /** When every old and new file is missing, `combined.bin` is empty. */
  lemma {:induction false} DifFromMapAllMissing(m: PatchMapStructure, fs: FileSystem, folderA: string, folderB: string,
                                                diff: (Bytes, Bytes) -> Bytes)
    requires forall i :: 0 <= i < |m.changedFiles| ==>
      JoinPath(folderA, m.changedFiles[i]) !in fs || JoinPath(folderB, m.changedFiles[i]) !in fs
    ensures DifFromMap(m, fs, folderA, folderB, diff) == []
  {
    var slots := DiffSlots(m.changedFiles, fs, folderA, folderB, diff);
    ConcatOfEmptySlots(slots);
  }

  lemma {:induction false} ConcatOfEmptySlots(slots: seq<Bytes>)
    requires forall i :: 0 <= i < |slots| ==> slots[i] == []
    ensures Concat(slots) == []
  {
    if slots != [] {
      ConcatOfEmptySlots(slots[1..]);
    }
  }

  /** With no separators or length prefixes, `combined.bin` does not say where one
      path's diff ends: a diff for the first path and a diff for the second can
      produce the same bytes. */
  lemma CombinedOutputHasNoBoundaries(m: PatchMapStructure, fs: FileSystem, fs': FileSystem,
                                      diff: (Bytes, Bytes) -> Bytes)
    requires m.changedFiles == ["a", "b"]
    requires fs == map["A/a" := [], "B/a" := []]
    requires fs' == map["A/b" := [], "B/b" := []]
    requires diff([], []) == [7 as byte]
    ensures DiffSlots(m.changedFiles, fs, "A", "B", diff) != DiffSlots(m.changedFiles, fs', "A", "B", diff)
    ensures DifFromMap(m, fs, "A", "B", diff) == DifFromMap(m, fs', "A", "B", diff) == [7 as byte]
  {
    var s1 := DiffSlots(m.changedFiles, fs, "A", "B", diff);
    var s2 := DiffSlots(m.changedFiles, fs', "A", "B", diff);
    assert JoinPath("A", "a") == "A/a" && JoinPath("B", "a") == "B/a";
    assert JoinPath("A", "b") == "A/b" && JoinPath("B", "b") == "B/b";
    assert s1 == [[7 as byte], []];
    assert s2 == [[], [7 as byte]];
    assert s1[1..] == [[]] && s1[1..][1..] == [];
    assert s2[1..] == [[7 as byte]] && s2[1..][1..] == [];
    assert Concat(s1[1..]) == [] + Concat(s1[1..][1..]);
    assert Concat(s1) == [7 as byte] + Concat(s1[1..]);
    assert Concat(s2[1..]) == [7 as byte] + Concat(s2[1..][1..]);
    assert Concat(s2) == [] + Concat(s2[1..]);
  }

  /** Only `changed_files` is read: the added and removed lists never reach the output. */
  lemma DifFromMapIgnoresAddedAndRemoved(m: PatchMapStructure, fs: FileSystem, folderA: string, folderB: string,
                                         diff: (Bytes, Bytes) -> Bytes, added: seq<string>, removed: seq<string>)
    ensures DifFromMap(m.(addedFiles := added, removedFiles := removed), fs, folderA, folderB, diff)
         == DifFromMap(m, fs, folderA, folderB, diff)
  {
  }
}
