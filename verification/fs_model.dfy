/**
 The abstract filesystem the backup pipeline works on: a finite map from paths to
 file contents, plus the byte-sequence helpers that every stage shares.
 */
module FileSystems {

  newtype byte = b: int | 0 <= b < 256

  /** Paths are opaque. `Named` stands for a literal path (the exported tar, the
      temporary `.tar.gz`, the destination and its backup); `Part(i)` is the file
      `part_i` written beside the source; `Gz(p)` is `p` with its extension set to
      `gz`, taken to be injective (it is for the extension-less `part_i` names). */
  datatype Path = Named(name: string) | Part(index: nat) | Gz(base: Path)

  type FileSystem = map<Path, seq<byte>>

  /** The only failure the model distinguishes: opening a file that is not there. */
  datatype Error = NotFound(path: Path)

  datatype Result<T> = Ok(value: T) | Err(error: Error)

  /** `a` and `b` agree about `p`: both lack it, or both hold the same bytes there. */
  predicate SameAt(a: FileSystem, b: FileSystem, p: Path) {
    (p in a <==> p in b) && (p in a ==> a[p] == b[p])
  }

  predicate AllPresent(fs: FileSystem, paths: seq<Path>) {
    forall i :: 0 <= i < |paths| ==> paths[i] in fs
  }

  predicate NonePresent(fs: FileSystem, paths: seq<Path>) {
    forall i :: 0 <= i < |paths| ==> paths[i] !in fs
  }

  /** The contents of `paths`, in list order. */
  function Contents(fs: FileSystem, paths: seq<Path>): (cs: seq<seq<byte>>)
    requires AllPresent(fs, paths)
    ensures |cs| == |paths|
    ensures forall i :: 0 <= i < |paths| ==> cs[i] == fs[paths[i]]
  {
    seq(|paths|, i requires 0 <= i < |paths| => fs[paths[i]])
  }

  /** Concatenation of a list of byte strings, with nothing between them. */
  function Flatten(cs: seq<seq<byte>>): seq<byte> {
    if cs == [] then [] else cs[0] + Flatten(cs[1..])
  }

  /** Flattening distributes over concatenation of the lists; in particular
      appending one more piece appends its bytes at the end. */
  lemma {:induction false} FlattenAppend(xs: seq<seq<byte>>, ys: seq<seq<byte>>)
    ensures Flatten(xs + ys) == Flatten(xs) + Flatten(ys)
    decreases |xs|
  {
    if xs == [] {
      assert xs + ys == ys;
    } else {
      assert (xs + ys)[1..] == xs[1..] + ys;
      FlattenAppend(xs[1..], ys);
    }
  }

  /** The total length of the pieces is the length of their concatenation. */
  function TotalLength(cs: seq<seq<byte>>): nat {
    if cs == [] then 0 else |cs[0]| + TotalLength(cs[1..])
  }

  lemma {:induction false} FlattenLength(cs: seq<seq<byte>>)
    ensures |Flatten(cs)| == TotalLength(cs)
    decreases |cs|
  {
    if cs != [] {
      FlattenLength(cs[1..]);
    }
  }
}
