/**
 Output rotation (`manage_output_dir`, `move_tar_gz_file`, `delete_bck_file`):
 three filesystem steps over a fixed destination and a fixed backup path.
   1. back up the destination, if there is one;
   2. copy the new artifact onto the destination and remove the artifact;
   3. remove the backup, if there is one.
 The destination is never removed, so a crash between any two steps leaves a
 usable artifact behind.
 */
module Rotation {
  import opened FileSystems

  const FinalPath: Path := Named("P:\\wsl\\backup\\ubuntu.tar.gz")
  const BackupPath: Path := Named("P:\\wsl\\backup\\ubuntu.tar.gz.bck")

  /** Step 1, `manage_output_dir`: copy the destination over the backup if the
      destination exists; otherwise nothing changes. */
  function ManageOutputDir(fs: FileSystem): (r: FileSystem)
    ensures FinalPath in fs ==> BackupPath in r && r[BackupPath] == fs[FinalPath]
    ensures FinalPath !in fs ==> r == fs
    ensures forall p :: p != BackupPath ==> SameAt(fs, r, p)
  {
    if FinalPath in fs then fs[BackupPath := fs[FinalPath]] else fs
  }

  /** Step 2, `move_tar_gz_file`: copy the artifact onto the destination, then
      remove the artifact. Fails if the artifact is absent. */
  function MoveTarGzFile(fs: FileSystem, tarGz: Path): (r: Result<FileSystem>)
    ensures r.Ok? <==> tarGz in fs
    ensures r.Err? ==> r.error == NotFound(tarGz)
    ensures r.Ok? && tarGz != FinalPath ==>
      && FinalPath in r.value && r.value[FinalPath] == fs[tarGz]
      && tarGz !in r.value
      && forall p :: p != FinalPath && p != tarGz ==> SameAt(fs, r.value, p)
  {
    if tarGz !in fs then Err(NotFound(tarGz))
    else Ok(fs[FinalPath := fs[tarGz]] - {tarGz})
  }

  /** Step 3, `delete_bck_file`: remove the backup if it exists. */
  function DeleteBckFile(fs: FileSystem): (r: FileSystem)
    ensures BackupPath !in r
    ensures forall p :: p != BackupPath ==> SameAt(fs, r, p)
  {
    if BackupPath in fs then fs - {BackupPath} else fs
  }

  /** The three steps in order, as `main` runs them. */
  function Rotate(fs: FileSystem, tarGz: Path): Result<FileSystem> {
    var backedUp := ManageOutputDir(fs);
    match MoveTarGzFile(backedUp, tarGz)
    case Err(e) => Err(e)
    case Ok(moved) => Ok(DeleteBckFile(moved))
  }

  /** The rotation protocol, state by state, for an artifact that is neither the
      destination nor the backup:
      - after step 1 the backup equals the old destination and the destination is untouched;
      - if step 2 fails the destination and its backup are still in place;
      - after step 2 the destination holds the new bytes and the artifact is gone;
      - at the end the destination holds the new bytes and there is no backup;
      - a destination that existed is present in every intermediate state;
      - no other path changes. */
  lemma RotationProtocol(fs: FileSystem, tarGz: Path)
    requires tarGz != FinalPath && tarGz != BackupPath
    ensures var s1 := ManageOutputDir(fs);
      && (FinalPath in fs ==>
            && FinalPath in s1 && s1[FinalPath] == fs[FinalPath]
            && BackupPath in s1 && s1[BackupPath] == fs[FinalPath])
      && (tarGz !in fs ==> MoveTarGzFile(s1, tarGz).Err? && Rotate(fs, tarGz).Err?)
      && (tarGz in fs ==>
            var s2 := MoveTarGzFile(s1, tarGz).value;
            var s3 := DeleteBckFile(s2);
            && FinalPath in s2 && s2[FinalPath] == fs[tarGz] && tarGz !in s2
            && (FinalPath in fs ==> BackupPath in s2 && s2[BackupPath] == fs[FinalPath])
            && Rotate(fs, tarGz) == Ok(s3)
            && FinalPath in s3 && s3[FinalPath] == fs[tarGz]
            && BackupPath !in s3 && tarGz !in s3
            && forall p :: p != FinalPath && p != BackupPath && p != tarGz ==> SameAt(fs, s3, p))
  {
    var s1 := ManageOutputDir(fs);
    assert SameAt(fs, s1, tarGz);
    if tarGz in fs {
      var s2 := MoveTarGzFile(s1, tarGz).value;
      forall p | p != FinalPath && p != BackupPath && p != tarGz
        ensures SameAt(fs, DeleteBckFile(s2), p)
      {
        assert SameAt(fs, s1, p) && SameAt(s1, s2, p) && SameAt(s2, DeleteBckFile(s2), p);
      }
    }
  }

  /** No step ever removes the destination once it exists (for an artifact that is
      not the destination itself). */
  lemma FinalNeverDeleted(fs: FileSystem, tarGz: Path)
    requires tarGz != FinalPath
    ensures FinalPath in fs ==> FinalPath in ManageOutputDir(fs)
    ensures FinalPath in fs && MoveTarGzFile(fs, tarGz).Ok? ==> FinalPath in MoveTarGzFile(fs, tarGz).value
    ensures FinalPath in fs ==> FinalPath in DeleteBckFile(fs)
  {
  }
}
