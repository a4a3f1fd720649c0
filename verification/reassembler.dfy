/**
 The reassembler (`reassemble_compressed_blocks`): truncates the output file,
 appends each compressed part to it in list order with nothing in between, then
 removes the parts, skipping any that are already gone.
 */
module Reassembler {
  import opened FileSystems

  /** The cleanup loop: remove each listed path that exists, skip the others.
      Whatever the list, the result is the filesystem without the listed paths. */
  function RemoveExisting(fs: FileSystem, paths: seq<Path>): (r: FileSystem)
    ensures r == fs - (set p | p in paths)
    decreases |paths|
  {
    if paths == [] then fs
    else
      var next := if paths[0] in fs then fs - {paths[0]} else fs;
      assert (set p | p in paths) == {paths[0]} + (set p | p in paths[1..]);
      RemoveExisting(next, paths[1..])
  }

  /** Cleanup is idempotent: a second pass finds nothing to remove and changes nothing. */
  lemma CleanupIdempotent(fs: FileSystem, paths: seq<Path>)
    ensures RemoveExisting(RemoveExisting(fs, paths), paths) == RemoveExisting(fs, paths)
    ensures NonePresent(RemoveExisting(fs, paths), paths)
  {
  }

  /** The copy loop: the output, truncated first, receives the listed files'
      contents in order. Stops at the first absent file. */
  method CopyInto(fs: FileSystem, files: seq<Path>, output: Path) returns (r: Result<FileSystem>)
    requires output !in files
    ensures r.Ok? <==> AllPresent(fs, files)
    ensures r.Err? ==> r.error.path in files && r.error.path !in fs
    ensures r.Ok? ==> r.value == fs[output := Flatten(Contents(fs, files))]
  {
    var acc: seq<byte> := [];
    var cur := fs[output := acc];
    var i := 0;
    while i < |files|
      invariant i <= |files|
      invariant AllPresent(fs, files[..i])
      invariant acc == Flatten(Contents(fs, files[..i]))
      invariant cur == fs[output := acc]
    {
      var f := files[i];
      assert f != output;
      if f !in cur {
        return Err(NotFound(f));
      }
      assert Contents(fs, files[..i + 1]) == Contents(fs, files[..i]) + [fs[f]];
      FlattenAppend(Contents(fs, files[..i]), [fs[f]]);
      acc := acc + cur[f];
      cur := cur[output := acc];
      i := i + 1;
    }
    assert files[..i] == files;
    return Ok(cur);
  }

  /** `reassemble_compressed_blocks`: on success the output holds exactly the
      concatenation of the listed files, none of the listed files remains, and
      nothing else changes. */
  method ReassembleCompressedBlocks(fs: FileSystem, files: seq<Path>, output: Path) returns (r: Result<FileSystem>)
    requires output !in files
    ensures r.Ok? <==> AllPresent(fs, files)
    ensures r.Err? ==> r.error.path in files && r.error.path !in fs
    ensures r.Ok? ==>
      && output in r.value
      && r.value[output] == Flatten(Contents(fs, files))
      && NonePresent(r.value, files)
      && forall p :: p != output && p !in files ==> SameAt(fs, r.value, p)
  {
    var copied := CopyInto(fs, files, output);
    if copied.Err? {
      return copied;
    }
    var cleaned := RemoveExisting(copied.value, files);
    return Ok(cleaned);
  }
}
