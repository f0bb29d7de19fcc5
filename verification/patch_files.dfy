/**
 Patch dispatch of `patch_files.rs`. Every changed path that has an entry in the
 path-to-patch map is rewritten in place with the binary patch applied to its
 current contents; a path without an entry is skipped, and the first failing path
 stops the run. Files already rewritten stay rewritten. The binary patch algorithm
 is a parameter `patch(old, data)` that may fail (None).
 */
module PatchFiles {
  import opened Common
  import opened MapStruct

  /** Why `patch_file` failed: reading the file, or applying the patch. The path is
      the model's own bookkeeping of which call failed; the `io::Error` that `fs::read`
      and `bsdiff::patch` return carries no path. */
  datatype PatchError = NotFound(path: string) | PatchFailed(path: string)
  {
    function Path(): string
    {
      match this
      case NotFound(p) => p
      case PatchFailed(p) => p
    }
  }

  /** The state a run leaves behind: the files as they now are, and `Ok` or the error. */
  datatype PatchRun = PatchRun(fs: FileSystem, outcome: Outcome<PatchError>)

  /** `patch_file`: read the file, patch it, write it back. */
  function PatchFile(fs: FileSystem, file: string, data: Bytes,
                     patch: (Bytes, Bytes) -> Option<Bytes>): (r: PatchRun)
    ensures r.fs.Keys == fs.Keys
    ensures r.outcome.Pass? <==> file in fs && patch(fs[file], data).Some?
    ensures r.outcome.Pass? ==> r.fs[file] == patch(fs[file], data).value
    ensures forall p :: p in fs && p != file ==> r.fs[p] == fs[p]
    ensures r.outcome.Fail? ==> r.fs == fs && r.outcome.error.Path() == file
    ensures r.outcome.Fail? ==> (r.outcome.error.NotFound? <==> file !in fs)
  {
    if file !in fs then PatchRun(fs, Fail(NotFound(file)))
    else match patch(fs[file], data)
      case None => PatchRun(fs, Fail(PatchFailed(file)))
      case Some(updated) => PatchRun(fs[file := updated], Pass)
  }

  /** `patch_file` is only called for a path with an entry in the patch map. */
  ghost predicate Touches(paths: seq<string>, patches: map<string, Bytes>, folder: string, p: string)
  {
    exists k :: 0 <= k < |paths| && paths[k] in patches && p == JoinPath(folder, paths[k])
  }

  /** The loop of `patch_via_map` over `paths`, starting from the files `fs`. */
  function PatchPaths(paths: seq<string>, patches: map<string, Bytes>, folder: string, fs: FileSystem,
                      patch: (Bytes, Bytes) -> Option<Bytes>): (r: PatchRun)
    ensures r.fs.Keys == fs.Keys
    ensures forall p :: p in fs && !Touches(paths, patches, folder, p) ==> r.fs[p] == fs[p]
    ensures r.outcome.Fail? ==> Touches(paths, patches, folder, r.outcome.error.Path())
  {
    if paths == [] then PatchRun(fs, Pass)
    else
      var relativePath := paths[0];
      var filePath := JoinPath(folder, relativePath);
      ShiftTouches(paths, patches, folder);
      if relativePath in patches then
        var step := PatchFile(fs, filePath, patches[relativePath], patch);
        if step.outcome.Fail? then step
        else PatchPaths(paths[1..], patches, folder, step.fs, patch)
      else
        PatchPaths(paths[1..], patches, folder, fs, patch)
  }

  /** `patch_via_map`: only `changed_files` is walked. */
  function PatchViaMap(m: PatchMapStructure, patches: map<string, Bytes>, folder: string, fs: FileSystem,
                       patch: (Bytes, Bytes) -> Option<Bytes>): (r: PatchRun)
    ensures r.fs.Keys == fs.Keys
    ensures forall p :: p in fs && !Touches(m.changedFiles, patches, folder, p) ==> r.fs[p] == fs[p]
    ensures r.outcome.Fail? ==> Touches(m.changedFiles, patches, folder, r.outcome.error.Path())
  {
    PatchPaths(m.changedFiles, patches, folder, fs, patch)
  }

  // ---------------------------------------------------------------------------
  // Order and abort.

  /** Paths are handled in list order, and an error ends the run: running `p1 + p2`
      is running `p1`, then, only if that passed, `p2` on the files it left. */
  lemma {:induction false} PatchPathsSequential(p1: seq<string>, p2: seq<string>, patches: map<string, Bytes>,
                                                folder: string, fs: FileSystem, patch: (Bytes, Bytes) -> Option<Bytes>)
    ensures PatchPaths(p1 + p2, patches, folder, fs, patch)
         == (var r1 := PatchPaths(p1, patches, folder, fs, patch);
             if r1.outcome.Fail? then r1 else PatchPaths(p2, patches, folder, r1.fs, patch))
    decreases |p1|
  {
    if p1 == [] {
      assert p1 + p2 == p2;
    } else {
      assert (p1 + p2)[0] == p1[0];
      assert (p1 + p2)[1..] == p1[1..] + p2;
      var filePath := JoinPath(folder, p1[0]);
      if p1[0] in patches {
        var step := PatchFile(fs, filePath, patches[p1[0]], patch);
        if step.outcome.Pass? {
          PatchPathsSequential(p1[1..], p2, patches, folder, step.fs, patch);
        }
      } else {
        PatchPathsSequential(p1[1..], p2, patches, folder, fs, patch);
      }
    }
  }

  /** A path with no entry in the patch map is skipped without error. */
  lemma PatchPathsSkipsMissingEntry(relativePath: string, rest: seq<string>, patches: map<string, Bytes>,
                                    folder: string, fs: FileSystem, patch: (Bytes, Bytes) -> Option<Bytes>)
    requires relativePath !in patches
    ensures PatchPaths([relativePath] + rest, patches, folder, fs, patch)
         == PatchPaths(rest, patches, folder, fs, patch)
  {
    assert ([relativePath] + rest)[1..] == rest;
  }

  /** When every changed path with an entry names an existing file, the paths are
      distinct strings (so, in this model, distinct files), and every patch applies, the run passes and each such file holds its
      patched contents. */
  lemma {:induction false} PatchPathsAllApply(paths: seq<string>, patches: map<string, Bytes>, folder: string,
                                              fs: FileSystem, patch: (Bytes, Bytes) -> Option<Bytes>)
    requires forall i, j :: 0 <= i < j < |paths| ==> paths[i] != paths[j]
    requires forall k :: 0 <= k < |paths| && paths[k] in patches ==>
      JoinPath(folder, paths[k]) in fs && patch(fs[JoinPath(folder, paths[k])], patches[paths[k]]).Some?
    ensures PatchPaths(paths, patches, folder, fs, patch).outcome.Pass?
    ensures forall k :: 0 <= k < |paths| && paths[k] in patches ==>
      PatchPaths(paths, patches, folder, fs, patch).fs[JoinPath(folder, paths[k])]
        == patch(fs[JoinPath(folder, paths[k])], patches[paths[k]]).value
    decreases |paths|
  {
    if paths != [] {
      var head, rest := paths[0], paths[1..];
      var filePath := JoinPath(folder, head);
      var fs' := if head in patches then PatchFile(fs, filePath, patches[head], patch).fs else fs;
      // The head's file is not touched again by the rest, and the rest sees its files unchanged.
      forall k | 0 <= k < |rest| && rest[k] in patches
        ensures JoinPath(folder, rest[k]) in fs' && fs'[JoinPath(folder, rest[k])] == fs[JoinPath(folder, rest[k])]
      {
        assert rest[k] == paths[k + 1];
        JoinPathInjective(folder, head, rest[k]);
      }
      PatchPathsAllApply(rest, patches, folder, fs', patch);
      var r := PatchPaths(paths, patches, folder, fs, patch);
      assert r == PatchPaths(rest, patches, folder, fs', patch);
      forall k | 0 <= k < |paths| && paths[k] in patches
        ensures r.fs[JoinPath(folder, paths[k])] == patch(fs[JoinPath(folder, paths[k])], patches[paths[k]]).value
      {
        if k == 0 {
          if Touches(rest, patches, folder, filePath) {
            var l :| 0 <= l < |rest| && rest[l] in patches && filePath == JoinPath(folder, rest[l]);
            JoinPathInjective(folder, head, rest[l]);
            assert false;
          }
        } else {
          assert paths[k] == rest[k - 1];
        }
      }
    }
  }

  /** Only `changed_files` matters: the added and removed lists are never read. */
  lemma PatchViaMapIgnoresAddedAndRemoved(m: PatchMapStructure, patches: map<string, Bytes>, folder: string,
                                          fs: FileSystem, patch: (Bytes, Bytes) -> Option<Bytes>,
                                          added: seq<string>, removed: seq<string>)
    ensures PatchViaMap(m.(addedFiles := added, removedFiles := removed), patches, folder, fs, patch)
         == PatchViaMap(m, patches, folder, fs, patch)
  {
  }

  // ---------------------------------------------------------------------------
  // Helpers.

  lemma ShiftTouches(paths: seq<string>, patches: map<string, Bytes>, folder: string)
    requires paths != []
    ensures forall p :: Touches(paths, patches, folder, p) <==>
      (paths[0] in patches && p == JoinPath(folder, paths[0])) || Touches(paths[1..], patches, folder, p)
  {
    forall p | Touches(paths, patches, folder, p)
      ensures (paths[0] in patches && p == JoinPath(folder, paths[0])) || Touches(paths[1..], patches, folder, p)
    {
      var k :| 0 <= k < |paths| && paths[k] in patches && p == JoinPath(folder, paths[k]);
      if k > 0 {
        assert paths[1..][k - 1] == paths[k];
      }
    }
    forall p | Touches(paths[1..], patches, folder, p)
      ensures Touches(paths, patches, folder, p)
    {
      var k :| 0 <= k < |paths[1..]| && paths[1..][k] in patches && p == JoinPath(folder, paths[1..][k]);
      assert paths[k + 1] == paths[1..][k];
    }
    if paths[0] in patches {
      assert Touches(paths, patches, folder, JoinPath(folder, paths[0]));
    }
  }
}
