/**
 The records exchanged between the hashing, diffing and patching stages:
 a manifest of `(file_name, hash)` entries and the change set computed from two
 manifests.
 */
module MapStruct {

  /** One manifest entry: a path relative to the snapshot root and the hex digest
      of the file's contents. */
  datatype HashOutput = HashOutput(fileName: string, hash: string)

  /** A manifest: the snapshot's version label and its entries, in walk order. */
  datatype FileStructure = FileStructure(version: string, files: seq<HashOutput>)

  /** The change set between an old and a new manifest. */
  datatype PatchMapStructure = PatchMapStructure(
    version: (string, string),
    changedFiles: seq<string>,
    removedFiles: seq<string>,
    addedFiles: seq<string>)

  /** `PatchMapStructure::new`: the version pair and three empty lists. */
  function NewPatchMap(oldVersion: string, newVersion: string): (m: PatchMapStructure)
    ensures m.version.0 == oldVersion && m.version.1 == newVersion
    ensures |m.changedFiles| == 0
    ensures |m.removedFiles| == 0
    ensures |m.addedFiles| == 0
  {
    PatchMapStructure((oldVersion, newVersion), [], [], [])
  }
}
