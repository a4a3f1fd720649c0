/**
 The backup pipeline as `main` runs it once the distribution has been exported:
 split the exported tar into 100 MiB parts, compress the parts in parallel,
 concatenate the compressed parts into a temporary `.tar.gz`, then rotate that
 file into the destination.
 */
module Pipeline {
  import opened FileSystems
  import opened Chunker
  import opened FanIn
  import opened Compressor
  import opened Reassembler
  import opened Rotation

  /** The tar that the export leaves in the temporary directory. */
  const ExportName: string := "%TEMP%\\ubuntu.tar"
  /** The reassembled archive, also in the temporary directory. */
  const TempTarGz: Path := Named("%TEMP%\\ubuntu.tar.gz")

  /** The work files of a run with `n` parts: `part_i` and `part_i.gz` for `i < n`. */
  predicate IsWorkFile(p: Path, n: nat) {
    || (p.Part? && p.index < n)
    || (p.Gz? && p.base.Part? && p.base.index < n)
  }

  /** The paths a run with `n` parts may change; every other path keeps its state. */
  predicate MayChange(p: Path, n: nat) {
    IsWorkFile(p, n) || p == TempTarGz || p == FinalPath || p == BackupPath
  }

  /** The parts of a split can be compressed side by side: no part is another
      part's compressed output and no two parts coincide. */
  lemma PartsAreDisjoint(n: nat)
    ensures WorkFilesDisjoint(PartPaths(n))
  {
    PartPathsDistinct(n);
  }

  /** Paths outside the work files are neither parts nor their compressed outputs. */
  lemma OutsideWorkFiles(p: Path, n: nat)
    requires !IsWorkFile(p, n)
    ensures p !in PartPaths(n) && p !in GzPaths(PartPaths(n))
  {
  }

  /** The compressed parts, read in list order, are the members of the chunks. */
  lemma CompressedContents(fs1: FileSystem, fs2: FileSystem, parts: seq<Path>, codec: Codec, cs: seq<seq<byte>>)
    requires AllPresent(fs1, parts) && Contents(fs1, parts) == cs
    requires CompressedAll(fs1, fs2, parts, codec.compress)
    ensures AllPresent(fs2, GzPaths(parts))
    ensures Contents(fs2, GzPaths(parts)) == Members(codec, cs)
  {
  }

  /** The state after compressing the parts and joining the outputs into the
      temporary archive: no work file remains and every other path is as before. */
  lemma PackedFrame(fs: FileSystem, fs2: FileSystem, r: FileSystem, n: nat, gzip: seq<byte> -> seq<byte>)
    requires AllPresent(fs, PartPaths(n))
    requires CompressedAll(fs, fs2, PartPaths(n), gzip)
    requires NonePresent(r, GzPaths(PartPaths(n)))
    requires forall p :: p != TempTarGz && p !in GzPaths(PartPaths(n)) ==> SameAt(fs2, r, p)
    ensures forall p :: IsWorkFile(p, n) ==> p !in r
    ensures forall p :: !IsWorkFile(p, n) && p != TempTarGz ==> SameAt(fs, r, p)
  {
    var parts := PartPaths(n);
    var gz := GzPaths(parts);
    forall p | IsWorkFile(p, n)
      ensures p !in r
    {
      if p.Part? {
        assert p == parts[p.index] && p !in gz;
        assert SameAt(fs2, r, p);
      } else {
        assert p == gz[p.base.index];
      }
    }
    forall p | !IsWorkFile(p, n) && p != TempTarGz
      ensures SameAt(fs, r, p)
    {
      OutsideWorkFiles(p, n);
      assert SameAt(fs, fs2, p) && SameAt(fs2, r, p);
    }
  }

  /** `compress_files_parallel` followed by `reassemble_compressed_blocks` on the
      parts of a split: the temporary archive holds the members of the parts in
      part order, the work files are gone, and nothing else changes. */
  method PackParts(fs: FileSystem, parts: seq<Path>, codec: Codec, order: seq<nat>) returns (r: FileSystem)
    requires parts == PartPaths(|parts|)
    requires AllPresent(fs, parts)
    requires IsPermutation(order, |parts|)
    ensures TempTarGz in r && r[TempTarGz] == Flatten(Members(codec, Contents(fs, parts)))
    ensures forall p :: IsWorkFile(p, |parts|) ==> p !in r
    ensures forall p :: !IsWorkFile(p, |parts|) && p != TempTarGz ==> SameAt(fs, r, p)
  {
    var n := |parts|;
    PartsAreDisjoint(n);
    var compressed := CompressFilesParallel(fs, parts, codec.compress, order);
    // Every part was just written, so no worker fails.
    assert compressed.Ok?;
    var (fs2, gz) := compressed.value;
    CompressedContents(fs, fs2, parts, codec, Contents(fs, parts));
    assert TempTarGz !in gz;
    var joined := ReassembleCompressedBlocks(fs2, gz, TempTarGz);
    assert joined.Ok?;
    r := joined.value;
    PackedFrame(fs, fs2, r, n, codec.compress);
  }

  /** The backup run after the export: `split_file`, `compress_files_parallel`,
      `reassemble_compressed_blocks`, `manage_output_dir`, `move_tar_gz_file`,
      `delete_bck_file`. The workers of a run with `n` parts finish in the order
      `orders(n)`, which may be any permutation. On success the
      destination holds the concatenated gzip members of the chunks, under the
      multi-member property it decompresses to the exported tar, the work files,
      the temporary archive and the backup are gone, and nothing else changes
      (the exported tar itself stays behind). */
  method Backup(fs: FileSystem, codec: Codec, offers: nat -> nat, orders: nat -> seq<nat>)
    returns (r: Result<FileSystem>)
    requires forall n :: IsPermutation(orders(n), n)
    ensures r.Ok? <==> Named(ExportName) in fs
    ensures r.Err? ==> r.error == NotFound(Named(ExportName))
    ensures r.Ok? ==>
      var data := fs[Named(ExportName)];
      var cs := Chunks(data, ChunkSize, offers, 0);
      var fs' := r.value;
      && FinalPath in fs'
      && fs'[FinalPath] == Flatten(Members(codec, cs))
      && (ConcatenatesMembers(codec) ==> codec.decompress(fs'[FinalPath]) == data)
      && BackupPath !in fs' && TempTarGz !in fs'
      && (forall p :: IsWorkFile(p, |cs|) ==> p !in fs')
      && (forall p :: !MayChange(p, |cs|) ==> SameAt(fs, fs', p))
  {
    var split := SplitFile(fs, ExportName, ChunkSize, offers);
    if split.Err? {
      return Err(split.error);
    }
    var (fs1, parts) := split.value;
    ghost var data := fs[Named(ExportName)];
    ghost var cs := Chunks(data, ChunkSize, offers, 0);
    var n := |parts|;
    var fs2 := PackParts(fs1, parts, codec, orders(n));

    var fs3 := ManageOutputDir(fs2);
    var moved := MoveTarGzFile(fs3, TempTarGz);
    RotationProtocol(fs2, TempTarGz);
    // The temporary archive was just written, so the move finds it.
    assert moved.Ok?;
    var fs4 := DeleteBckFile(moved.value);

    ChunksCover(data, ChunkSize, offers, 0);
    if ConcatenatesMembers(codec) {
      DecompressMembers(codec, cs);
    }
    forall p | IsWorkFile(p, n)
      ensures p !in fs4
    {
      assert SameAt(fs2, fs4, p);
    }
    forall p | !MayChange(p, n)
      ensures SameAt(fs, fs4, p)
    {
      assert SameAt(fs, fs1, p) && SameAt(fs1, fs2, p) && SameAt(fs2, fs4, p);
    }
    return Ok(fs4);
  }
}
