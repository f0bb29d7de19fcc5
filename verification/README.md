# A verified model of the infinity-download-fragmenter core

The repository prepares incremental downloads of an aircraft package. It has five pieces. It hashes every file of two package versions into manifests. It compares the manifests into a change set. It diffs each changed file with bsdiff into one `combined.bin` output. It applies per-path patches to a folder. It also has a raw-subtraction differ for uncompressed DDS textures. This project models the pure logic of those pieces as Dafny functions over immutable data and proves properties about them.

| module (file) | models |
|---|---|
| `Common` (common.dfy) | `u8` with explicit wrap-around (`WrappingSub`, `WrappingAdd`), `Option`, pass/fail `Outcome`, and the file system as a map from full path to contents. It also has `format!("{}/{}", folder, path)`. |
| `MapStruct` (map_struct.dfy) | `HashOutput`, `FileStructure`, `PatchMapStructure` and `PatchMapStructure::new`. |
| `Hash` (hash.dfy) | The classification loops of `compare_hash`, including `find` (first match) and `any`. |
| `DdsDiffer` (dds_differ.dfy) | `read_dds`, `save_dds`, `compute_diff`, `patch_image` and `create_diff` on byte sequences. |
| `DiffFiles` (diff_files.dfy) | `trim_relative_path` and the slot filling and concatenation of `dif_from_map` / `spawn_task_async`. |
| `PatchFiles` (patch_files.dfy) | `patch_file` and `patch_via_map`. |

The model abstracts the following:
- bsdiff's `diff` is a function parameter `diff(old, new)`.
- bsdiff's `patch` is a function parameter `patch(old, data)` that returns `None` when it fails.
- "A file exists" means its full path is a key of the `FileSystem` map, which is when `fs::metadata` succeeds.
- Manifests are inputs: the model does no hashing and no JSON.
- The rayon and tokio code maps element-wise or awaits one task at a time, so it is modelled as sequential code.

Some properties only hold under extra conditions. The model proves them with those conditions and shows what happens without them:
- **Duplicate names.** `compare_hash` compares each old entry with the *first* new entry of the same name. A manifest that repeats a name with two hashes therefore reports that name as changed even against itself (`DuplicateNamesReportChangedAgainstItself`). So "identical manifests give an empty change set" is proved for manifests with unique names, which is what a directory walk produces.
- **The header in `patch_image`.** `patch_image` writes the header it is given, the original file's header. `create_diff` throws both headers away. So patching file 1 with the diff of files 1 and 2 reproduces file 2 exactly when the two headers are equal (`PatchReproducesTargetIffHeadersMatch`).
- **No boundaries in `combined.bin`.** `dif_from_map` writes the slots back to back with no separator or length prefix. The output alone cannot say which bytes belong to which path (`CombinedOutputHasNoBoundaries`). The JSON path→patch map that `patch_via_map` consumes comes from elsewhere; `parse_patch_file` is not part of this model.

## Model

| member | source | states |
|---|---|---|
| Common.WrappingSub | src/dds_differ.rs:48 | `wrapping_sub` on `u8` is the difference reduced modulo 256 |
| Common.WrappingAdd | src/dds_differ.rs:72 | `wrapping_add` on `u8` is the sum reduced modulo 256 |
| Common.WrappingAddUndoesSub | src/dds_differ.rs:48 | Adding back a wrapped difference restores the byte, for every pair of bytes |
| Common.JoinPathInjective | src/patch_files.rs:26 | Within one folder, the `folder/path` strings differ exactly when the relative paths differ |
| MapStruct.NewPatchMap | src/map_struct.rs:23-30 | `new(o, n)` has version `(o, n)` and empty changed, removed and added lists |
| Hash.Find | src/hash.rs:69-73 | `find` returns nothing exactly when no entry has the name; otherwise it returns an entry with that name and no earlier entry has that name |
| Hash.AnyNamed | src/hash.rs:83-86 | `any` holds exactly when some entry has the name |
| Hash.ChangedFiles | src/hash.rs:68-76 | A name is in `changed_files` exactly when some old entry with it finds a new entry with a different hash; such names are in both manifests; the list keeps the old list's order |
| Hash.RemovedFiles | src/hash.rs:68-79 | A name is in `removed_files` exactly when it is in the old manifest and not the new one; the list keeps the old list's order |
| Hash.AddedFiles | src/hash.rs:82-90 | A name is in `added_files` exactly when it is in the new manifest and not the old one; the list keeps the new list's order |
| Hash.CompareHash | src/hash.rs:66-90 | Version is `(old.version, new.version)`; membership of all three lists as above; `changed` is within old∩new; the three lists are pairwise disjoint |
| Hash.ChangedFilesAppend | src/hash.rs:68-76 | One more old entry appends its name to `changed_files` exactly when its hash differs from the first new entry with its name, and appends nothing otherwise |
| Hash.RemovedFilesAppend | src/hash.rs:68-79 | One more old entry appends its name to `removed_files` exactly when the new list has no entry with that name |
| Hash.AddedFilesAppend | src/hash.rs:82-90 | One more new entry appends its name to `added_files` exactly when the old list has no entry with that name |
| Hash.ClassifyUsesFirstMatch | src/hash.rs:69-76 | If the new list repeats a name, the hash compared is that of its first entry with the name |
| Hash.ChangedIffHashDiffers | src/hash.rs:68-76 | When the new manifest has unique names (the old one may repeat names), a name is changed exactly when an old and a new entry with it have different hashes |
| Hash.IdenticalManifestsYieldNoChanges | src/hash.rs:66-90 | Comparing a manifest with unique names against itself gives `new(o, n)`: all three lists are empty |
| Hash.DuplicateNamesReportChangedAgainstItself | src/hash.rs:69-76 | A list that repeats a name with two hashes, compared against itself, reports that name as changed |
| Hash.DisjointManifests | src/hash.rs:68-90 | Manifests with no name in common give nothing changed, all old names removed and all new names added, in list order |
| DdsDiffer.ReadDds | src/dds_differ.rs:8-15 | Fails exactly when the file is shorter than 128 bytes; otherwise the header is 128 bytes and header ++ body is the file |
| DdsDiffer.SaveDds | src/dds_differ.rs:17-21 | The file written starts with the header, and the data follows it |
| DdsDiffer.ReadAfterSave | src/dds_differ.rs:8-21 | Reading back what `save_dds` wrote with a 128-byte header gives the same header and data |
| DdsDiffer.SaveAfterRead | src/dds_differ.rs:8-21 | Writing back what `read_dds` split reproduces the file |
| DdsDiffer.ComputeDiff | src/dds_differ.rs:44-50 | The length is the shorter input's; byte i is `(image2[i] - image1[i]) mod 256` |
| DdsDiffer.AddDiff | src/dds_differ.rs:69-73 | The length is the shorter input's; byte i is `(image[i] + diff[i]) mod 256` |
| DdsDiffer.PatchImage | src/dds_differ.rs:63-78 | The output is the given header followed by the patched pixel bytes, `(orig[i] + diff[i]) mod 256` |
| DdsDiffer.CreateDiff | src/dds_differ.rs:52-61 | Fails exactly when either file is shorter than a header; otherwise the diff is as long as the shorter body |
| DdsDiffer.AddDiffUndoesComputeDiff | src/dds_differ.rs:44-50 | For bodies of equal length, including empty ones, patching a with `compute_diff(a, b)` gives b |
| DdsDiffer.ComputeDiffOfSelfIsZero | src/dds_differ.rs:48 | `compute_diff(a, a)` is all zeros |
| DdsDiffer.CreateDiffIgnoresHeaders | src/dds_differ.rs:53-56 | Both headers are discarded: the diff is `compute_diff` of the bodies, whatever the headers hold |
| DdsDiffer.PatchReproducesTargetIffHeadersMatch | src/dds_differ.rs:52-78 | For equal-length files, patching file 1 with the diff of files 1 and 2 reproduces file 2 exactly when their headers are equal |
| DiffFiles.LastIndexOf | src/diff_files.rs:15 | `rfind` finds nothing exactly when the character is absent; otherwise it returns a position holding the character, with none after it |
| DiffFiles.TrimRelativePath | src/diff_files.rs:14-20 | The result is a suffix of the input with no backslash, preceded by a backslash when the input has one; without a backslash the input is returned unchanged |
| DiffFiles.TrimIsIdempotent | src/diff_files.rs:14-20 | Trimming twice gives the same result as trimming once |
| DiffFiles.TrimIsLongestBackslashFreeSuffix | src/diff_files.rs:15-16 | Any suffix that follows a backslash and contains none is exactly the result: the text after the last backslash |
| DiffFiles.TrimDropsBackslashFolders | src/diff_files.rs:15-16 | `a\b.dds` trims to `b.dds` |
| DiffFiles.TrimKeepsForwardSlashPath | src/diff_files.rs:17-18 | `a/b.dds` is unchanged: a forward slash is not a separator |
| DiffFiles.FillSlots | src/diff_files.rs:41-70 | The loop from index i leaves earlier slots alone; each later slot gets the diff when both files exist and otherwise keeps its value |
| DiffFiles.DiffSlots | src/diff_files.rs:39-70 | One slot per changed path; slot i is `diff(old_i, new_i)` when both files exist and empty otherwise |
| DiffFiles.DifFromMap | src/diff_files.rs:32-84 | The output's length is the sum of the slot lengths |
| DiffFiles.ConcatSplitsAtSlot | src/diff_files.rs:79-81 | The written bytes are the earlier slots, then slot i, then the later slots, in index order with nothing between them |
| DiffFiles.DifFromMapLayout | src/diff_files.rs:39-81 | Path i's diff (or nothing, if a file is missing) sits right after the bytes of the paths before it |
| DiffFiles.DifFromMapAllMissing | src/diff_files.rs:45-58 | If every path is missing a file, the output is empty |
| DiffFiles.CombinedOutputHasNoBoundaries | src/diff_files.rs:79-81 | Two different slot vectors can give the same output bytes |
| DiffFiles.DifFromMapIgnoresAddedAndRemoved | src/diff_files.rs:41 | The added and removed lists do not affect the output |
| PatchFiles.PatchFile | src/patch_files.rs:9-17 | Succeeds exactly when the file exists and the patch applies; it then writes `patch(old, data)` to that file only. On failure nothing changes, and the error is `NotFound` exactly when the file is missing (the path carried by the error is the model's bookkeeping; `io::Error` has none) |
| PatchFiles.PatchPaths | src/patch_files.rs:25-34 | No file is created or deleted; a file not reached through a path with a patch entry is unchanged; the failing call is on such a file (recorded by the model, not by `io::Error`) |
| PatchFiles.PatchViaMap | src/patch_files.rs:20-35 | The same guarantees hold over `changed_files` |
| PatchFiles.PatchPathsSequential | src/patch_files.rs:25-29 | Paths run in list order, and the first error stops the rest: running `p1 ++ p2` is running `p1`, then `p2` only if `p1` passed |
| PatchFiles.PatchPathsSkipsMissingEntry | src/patch_files.rs:27-32 | A path without a patch entry is skipped without error and without effect |
| PatchFiles.PatchPathsAllApply | src/patch_files.rs:10-14 | For distinct path strings (distinct files in this model) whose files exist and whose patches apply, the run passes and each file at `folder/path` holds `patch(old, data)` |
| PatchFiles.PatchViaMapIgnoresAddedAndRemoved | src/patch_files.rs:25 | The added and removed lists do not affect the run |

## Left out

- Hashing (`hash_aircraft`, src/hash.rs:15-56): directory walking and SHA-256 are file-system I/O and a foreign crypto crate, so manifests are inputs.
- JSON: reading and writing `hash.json` and `map.json`, and `parse_patch_file`, are serde library calls.
- bsdiff: the `diff` and `patch` internals are an external crate, so they are parameters. A panic inside `diff` or `fs::read` in `diff_files` (the `expect` calls) is not modelled; the diff is a total function.
- `save_diff`: gzip compression and the mutex-guarded parallel write are a foreign codec plus concurrency with a nondeterministic chunk order. `CreateDiff` returns the uncompressed diff.
- I/O errors: errors from opening, creating or writing files (the `?` on `open` and `write_all` in `dif_from_map`, and on `fs::write` in `patch_file`) are not modelled; writes always succeed. `read_dds` failing on a short file is modelled as `None`; the other `expect` panics in `dds_differ.rs` are not.
- The file system: directories, permissions and non-UTF-8 names are not modelled. A path exists exactly when it is a key of the map. An `fs::metadata` success on a directory is not distinguished.
- Logging: the tokio runtime, timing, `println!` and `eprintln!` have no effect on results.
- DiffFiles.LastIndexOf: returns a character index, while `rfind` returns a byte index, so the index itself differs on non-ASCII input (for `"é\\x"`, `rfind` gives 2 and the model gives 1). Strings here are sequences of characters. `TrimRelativePath` is unaffected: `\` is one byte, so slicing after it yields the same text.
- File identity: two paths name the same file only when their strings are equal. Case-insensitive names, mixed `\` and `/` separators, and `.` or `..` components are not modelled. A manifest from one directory walk has no such pairs. `PatchPathsAllApply` relies on this: on a case-insensitive or `\`-accepting file system, two different strings in `changed_files` could name one file, and the second patch would then apply to the first one's output.
