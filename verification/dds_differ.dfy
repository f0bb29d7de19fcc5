/**
 The raw-subtraction texture delta of `dds_differ.rs`. A DDS file is split into
 a fixed 128-byte header and a body; the delta of two bodies is their byte-wise
 difference modulo 256, and patching adds it back. The parallel iterators only map
 element-wise, so the model computes the same bytes sequentially.
 */
module DdsDiffer {
  import opened Common

  /** The number of header bytes `read_dds` reads before the pixel data. */
  const HeaderSize: nat := 128

  /** `read_dds` on a file's contents: the header and the rest of the file.
      A file too short for the header makes `read_exact` fail (None). */
  function ReadDds(file: Bytes): (r: Option<(Bytes, Bytes)>)
    ensures r.Some? <==> |file| >= HeaderSize
    ensures r.Some? ==> |r.value.0| == HeaderSize && r.value.0 + r.value.1 == file
  {
    if |file| < HeaderSize then None
    else Some((file[..HeaderSize], file[HeaderSize..]))
  }

  /** `save_dds`: the contents written, header first, then data. */
  function SaveDds(header: Bytes, data: Bytes): (file: Bytes)
    ensures |file| == |header| + |data|
    ensures file[..|header|] == header && file[|header|..] == data
  {
    header + data
  }

  /** `compute_diff(image1, image2)`: zipping stops at the shorter input, and each
      byte is the new byte minus the old one, wrapping. */
  function ComputeDiff(image1: Bytes, image2: Bytes): (d: Bytes)
    ensures |d| == Min(|image1|, |image2|)
    ensures forall i :: 0 <= i < |d| ==> d[i] as int == (image2[i] as int - image1[i] as int) % 256
  {
    if image1 == [] || image2 == [] then []
    else [WrappingSub(image2[0], image1[0])] + ComputeDiff(image1[1..], image2[1..])
  }

  /** The pixel map of `patch_image`: each original byte plus its diff byte, wrapping;
      zipping stops at the shorter input. */
  function AddDiff(image: Bytes, diff: Bytes): (p: Bytes)
    ensures |p| == Min(|image|, |diff|)
    ensures forall i :: 0 <= i < |p| ==> p[i] as int == (image[i] as int + diff[i] as int) % 256
  {
    if image == [] || diff == [] then []
    else [WrappingAdd(image[0], diff[0])] + AddDiff(image[1..], diff[1..])
  }

  /** `patch_image`: the contents written to the output file. The header written is
      the one passed in, i.e. the ORIGINAL file's header. */
  function PatchImage(originalHeader: Bytes, originalImage: Bytes, diff: Bytes): (file: Bytes)
    ensures |file| == |originalHeader| + Min(|originalImage|, |diff|)
    ensures file[..|originalHeader|] == originalHeader
    ensures forall i :: 0 <= i < Min(|originalImage|, |diff|) ==>
      file[|originalHeader| + i] as int == (originalImage[i] as int + diff[i] as int) % 256
  {
    SaveDds(originalHeader, AddDiff(originalImage, diff))
  }

  /** `create_diff` on two files' contents, before `save_diff` compresses it: the
      diff of the two bodies. Either file being shorter than a header fails (None). */
  function CreateDiff(file1: Bytes, file2: Bytes): (r: Option<Bytes>)
    ensures r.Some? <==> |file1| >= HeaderSize && |file2| >= HeaderSize
    ensures r.Some? ==> |r.value| == Min(|file1|, |file2|) - HeaderSize
  {
    match (ReadDds(file1), ReadDds(file2))
    case (Some((_, originalData)), Some((_, endingData))) => Some(ComputeDiff(originalData, endingData))
    case _ => None
  }

  // ---------------------------------------------------------------------------
  // Round trips.

  /** Splitting what `save_dds` wrote with a 128-byte header gives back header and data. */
  lemma ReadAfterSave(header: Bytes, data: Bytes)
    requires |header| == HeaderSize
    ensures ReadDds(SaveDds(header, data)) == Some((header, data))
  {
  }

  /** Writing back what `read_dds` split reproduces the file. */
  lemma SaveAfterRead(file: Bytes)
    requires |file| >= HeaderSize
    ensures SaveDds(ReadDds(file).value.0, ReadDds(file).value.1) == file
  {
  }

  /** Patching a body with its diff to an equally long body yields that body,
      including the empty case. */
  lemma {:induction false} AddDiffUndoesComputeDiff(a: Bytes, b: Bytes)
    requires |a| == |b|
    ensures AddDiff(a, ComputeDiff(a, b)) == b
  {
    if a != [] {
      WrappingAddUndoesSub(a[0], b[0]);
      AddDiffUndoesComputeDiff(a[1..], b[1..]);
    }
  }

  /** The diff of a body with itself is all zeros. */
  lemma {:induction false} ComputeDiffOfSelfIsZero(a: Bytes)
    ensures ComputeDiff(a, a) == seq(|a|, _ => 0 as byte)
  {
    if a != [] {
      ComputeDiffOfSelfIsZero(a[1..]);
      assert seq(|a|, _ => 0 as byte) == [0 as byte] + seq(|a| - 1, _ => 0 as byte);
    }
  }

  /** `create_diff` reads both headers and throws them away: the diff depends only
      on the bodies. */
  lemma CreateDiffIgnoresHeaders(h1: Bytes, h2: Bytes, g1: Bytes, g2: Bytes, d1: Bytes, d2: Bytes)
    requires |h1| == |h2| == |g1| == |g2| == HeaderSize
    ensures CreateDiff(h1 + d1, h2 + d2) == CreateDiff(g1 + d1, g2 + d2) == Some(ComputeDiff(d1, d2))
  {
    assert (h1 + d1)[HeaderSize..] == d1 && (g1 + d1)[HeaderSize..] == d1;
    assert (h2 + d2)[HeaderSize..] == d2 && (g2 + d2)[HeaderSize..] == d2;
  }

  /** The whole-file round trip: patching file 1 (its header and body) with the diff
      created from files 1 and 2 of equal length reproduces file 2 exactly when the two
      headers agree, since the patch keeps file 1's header. */
  lemma PatchReproducesTargetIffHeadersMatch(file1: Bytes, file2: Bytes)
    requires |file1| == |file2| >= HeaderSize
    ensures PatchImage(ReadDds(file1).value.0, ReadDds(file1).value.1, CreateDiff(file1, file2).value) == file2
        <==> file1[..HeaderSize] == file2[..HeaderSize]
  {
    var body1, body2 := file1[HeaderSize..], file2[HeaderSize..];
    AddDiffUndoesComputeDiff(body1, body2);
    var out := PatchImage(file1[..HeaderSize], body1, ComputeDiff(body1, body2));
    assert out == file1[..HeaderSize] + body2;
    assert file2 == file2[..HeaderSize] + body2;
    if out == file2 {
      assert out[..HeaderSize] == file1[..HeaderSize];
    }
  }
}
