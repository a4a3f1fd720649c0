/**
 The parallel compressor (`compress_files_parallel`). Each worker owns one chunk
 file end to end: it reads the chunk, writes its gzip member to the chunk's `.gz`
 name, removes the chunk and reports `(index, gz path)`. Workers touch pairwise
 distinct files, so running them one after another in their completion order
 (any permutation) yields what the concurrent run yields. gzip itself is an
 opaque pair of functions.
 */
module Compressor {
  import opened FileSystems
  import opened FanIn

  /** gzip as the model sees it: a compressor and a decompressor, nothing more. */
  datatype Codec = Codec(compress: seq<byte> -> seq<byte>, decompress: seq<byte> -> seq<byte>)

  /** Section 2.2 of RFC 1952: a gzip file is a series of members, so decompressing
      a member followed by more data yields the member's plaintext followed by the
      decompression of the rest; an empty series decompresses to nothing. */
  ghost predicate ConcatenatesMembers(c: Codec) {
    && c.decompress([]) == []
    && forall a, rest :: c.decompress(c.compress(a) + rest) == a + c.decompress(rest)
  }

  /** The compressed file name of each input: `with_extension("gz")`. */
  function GzPaths(files: seq<Path>): (gz: seq<Path>)
    ensures |gz| == |files|
    ensures forall i :: 0 <= i < |files| ==> gz[i] == Gz(files[i])
  {
    seq(|files|, i requires 0 <= i < |files| => Gz(files[i]))
  }

  /** No two workers share a file: inputs are distinct and no input is another's `.gz`. */
  predicate WorkFilesDisjoint(files: seq<Path>) {
    && (forall i, j :: 0 <= i < j < |files| ==> files[i] != files[j])
    && (forall i, j :: 0 <= i < |files| && 0 <= j < |files| ==> files[i] != Gz(files[j]))
  }

  /** One worker: compress `f` into `Gz(f)`, then remove `f`. A worker whose input
      is absent does nothing here; the caller reports that case as a failure. */
  function Work(fs: FileSystem, f: Path, gzip: seq<byte> -> seq<byte>): FileSystem {
    if f in fs then fs[Gz(f) := gzip(fs[f])] - {f} else fs
  }

  /** The workers `ws` (indices into `files`) run one after another. */
  function RunWorkers(fs: FileSystem, files: seq<Path>, gzip: seq<byte> -> seq<byte>, ws: seq<nat>): FileSystem
    requires forall t :: 0 <= t < |ws| ==> ws[t] < |files|
    decreases |ws|
  {
    if ws == [] then fs
    else Work(RunWorkers(fs, files, gzip, ws[..|ws| - 1]), files[ws[|ws| - 1]], gzip)
  }

  /** The files the workers `ws` touch: their inputs and their outputs. */
  function Touched(files: seq<Path>, ws: seq<nat>): set<Path>
    requires forall t :: 0 <= t < |ws| ==> ws[t] < |files|
  {
    (set t | 0 <= t < |ws| :: files[ws[t]]) + (set t | 0 <= t < |ws| :: Gz(files[ws[t]]))
  }

  predicate DistinctIndices(ws: seq<nat>, n: nat) {
    && (forall t :: 0 <= t < |ws| ==> ws[t] < n)
    && (forall s, t :: 0 <= s < t < |ws| ==> ws[s] != ws[t])
  }

  /** The worker `w` is not touched by the distinct workers before it. */
  lemma LastInputUntouched(files: seq<Path>, ws: seq<nat>)
    requires WorkFilesDisjoint(files)
    requires DistinctIndices(ws, |files|)
    requires ws != []
    ensures files[ws[|ws| - 1]] !in Touched(files, ws[..|ws| - 1])
  {
    var k := |ws| - 1;
    var f := files[ws[k]];
    forall t | 0 <= t < k
      ensures files[ws[..k][t]] != f && Gz(files[ws[..k][t]]) != f
    {
      assert ws[..k][t] == ws[t];
    }
  }

  /** Running workers over present inputs changes only the files they touch. */
  lemma {:induction false} RunWorkersFrame(fs: FileSystem, files: seq<Path>, gzip: seq<byte> -> seq<byte>, ws: seq<nat>)
    requires DistinctIndices(ws, |files|)
    ensures forall p :: p !in Touched(files, ws) ==> SameAt(fs, RunWorkers(fs, files, gzip, ws), p)
    decreases |ws|
  {
    if ws != [] {
      var k := |ws| - 1;
      var prefix := ws[..k];
      var f := files[ws[k]];
      var before := RunWorkers(fs, files, gzip, prefix);
      RunWorkersFrame(fs, files, gzip, prefix);
      forall p | p !in Touched(files, ws)
        ensures SameAt(fs, RunWorkers(fs, files, gzip, ws), p)
      {
        assert p != f && p != Gz(f) by {
          assert files[ws[k]] in Touched(files, ws);
          assert Gz(files[ws[k]]) in Touched(files, ws);
        }
        assert p !in Touched(files, prefix);
        assert SameAt(fs, before, p);
      }
    }
  }

  /** The effect of running distinct workers over present, disjoint files: each
      input is gone, each output holds the compressed input, nothing else changes. */
  lemma {:induction false} RunWorkersEffect(fs: FileSystem, files: seq<Path>, gzip: seq<byte> -> seq<byte>, ws: seq<nat>)
    requires WorkFilesDisjoint(files)
    requires DistinctIndices(ws, |files|)
    requires forall t :: 0 <= t < |ws| ==> files[ws[t]] in fs
    ensures var r := RunWorkers(fs, files, gzip, ws);
            forall t :: 0 <= t < |ws| ==>
              files[ws[t]] !in r && Gz(files[ws[t]]) in r && r[Gz(files[ws[t]])] == gzip(fs[files[ws[t]]])
    ensures forall p :: p !in Touched(files, ws) ==> SameAt(fs, RunWorkers(fs, files, gzip, ws), p)
    decreases |ws|
  {
    RunWorkersFrame(fs, files, gzip, ws);
    if ws != [] {
      var k := |ws| - 1;
      var prefix := ws[..k];
      var f := files[ws[k]];
      var before := RunWorkers(fs, files, gzip, prefix);
      var r := RunWorkers(fs, files, gzip, ws);
      assert DistinctIndices(prefix, |files|);
      RunWorkersEffect(fs, files, gzip, prefix);
      RunWorkersFrame(fs, files, gzip, prefix);
      LastInputUntouched(files, ws);
      assert SameAt(fs, before, f);
      assert r == before[Gz(f) := gzip(fs[f])] - {f};
      forall t | 0 <= t < |ws|
        ensures files[ws[t]] !in r && Gz(files[ws[t]]) in r && r[Gz(files[ws[t]])] == gzip(fs[files[ws[t]]])
      {
        if t < k {
          assert prefix[t] == ws[t];
          assert files[ws[t]] != f;
        }
      }
    }
  }

  /** A permutation's workers touch every input and every output. */
  lemma TouchedIsAll(files: seq<Path>, order: seq<nat>)
    requires IsPermutation(order, |files|)
    ensures forall p :: p in Touched(files, order) <==> p in files || p in GzPaths(files)
  {
    forall i | 0 <= i < |files|
      ensures files[i] in Touched(files, order) && Gz(files[i]) in Touched(files, order)
    {
      assert i in order;
      var t :| 0 <= t < |order| && order[t] == i;
    }
  }

  /** The state after every worker has run: each input is gone, each `.gz` file
      holds its input compressed, every other path is as it was. */
  ghost predicate CompressedAll(fs: FileSystem, r: FileSystem, files: seq<Path>, gzip: seq<byte> -> seq<byte>)
    requires AllPresent(fs, files)
  {
    && (forall i :: 0 <= i < |files| ==>
          files[i] !in r && Gz(files[i]) in r && r[Gz(files[i])] == gzip(fs[files[i]]))
    && (forall p :: p !in files && p !in GzPaths(files) ==> SameAt(fs, r, p))
  }

  /** The state after all workers is determined by the inputs alone. */
  lemma CompressedAllUnique(fs: FileSystem, r1: FileSystem, r2: FileSystem, files: seq<Path>, gzip: seq<byte> -> seq<byte>)
    requires AllPresent(fs, files)
    requires CompressedAll(fs, r1, files, gzip) && CompressedAll(fs, r2, files, gzip)
    ensures r1 == r2
  {
    forall p
      ensures SameAt(r1, r2, p)
    {
      if p in files {
        var i :| 0 <= i < |files| && files[i] == p;
      } else if p in GzPaths(files) {
        var i :| 0 <= i < |files| && GzPaths(files)[i] == p;
      } else {
        assert SameAt(fs, r1, p) && SameAt(fs, r2, p);
      }
    }
    assert r1.Keys == r2.Keys by {
      forall p
        ensures p in r1 <==> p in r2
      {
        assert SameAt(r1, r2, p);
      }
    }
    forall p | p in r1
      ensures r1[p] == r2[p]
    {
      assert SameAt(r1, r2, p);
    }
  }

  /** Running every worker, in any completion order, reaches that state. */
  lemma AllWorkersEffect(fs: FileSystem, files: seq<Path>, gzip: seq<byte> -> seq<byte>, order: seq<nat>)
    requires WorkFilesDisjoint(files)
    requires AllPresent(fs, files)
    requires IsPermutation(order, |files|)
    ensures CompressedAll(fs, RunWorkers(fs, files, gzip, order), files, gzip)
  {
    var r := RunWorkers(fs, files, gzip, order);
    RunWorkersEffect(fs, files, gzip, order);
    TouchedIsAll(files, order);
    forall i | 0 <= i < |files|
      ensures files[i] !in r && Gz(files[i]) in r && r[Gz(files[i])] == gzip(fs[files[i]])
    {
      assert i in order;
      var t :| 0 <= t < |order| && order[t] == i;
    }
  }

  /** Completion order does not matter: any two completion orders leave the
      filesystem in the same state. */
  lemma WorkersCommute(fs: FileSystem, files: seq<Path>, gzip: seq<byte> -> seq<byte>, order1: seq<nat>, order2: seq<nat>)
    requires WorkFilesDisjoint(files)
    requires AllPresent(fs, files)
    requires IsPermutation(order1, |files|) && IsPermutation(order2, |files|)
    ensures RunWorkers(fs, files, gzip, order1) == RunWorkers(fs, files, gzip, order2)
  {
    AllWorkersEffect(fs, files, gzip, order1);
    AllWorkersEffect(fs, files, gzip, order2);
    CompressedAllUnique(fs, RunWorkers(fs, files, gzip, order1), RunWorkers(fs, files, gzip, order2), files, gzip);
  }

  /** The next worker to finish finds its input as it was before any worker ran. */
  lemma NextInputUntouched(fs: FileSystem, files: seq<Path>, gzip: seq<byte> -> seq<byte>, order: seq<nat>, j: nat)
    requires WorkFilesDisjoint(files)
    requires IsPermutation(order, |files|)
    requires j < |order|
    requires forall t :: 0 <= t < j ==> files[order[t]] in fs
    ensures SameAt(fs, RunWorkers(fs, files, gzip, order[..j]), files[order[j]])
  {
    var f := files[order[j]];
    assert DistinctIndices(order[..j], |files|);
    RunWorkersEffect(fs, files, gzip, order[..j]);
    forall t | 0 <= t < j
      ensures files[order[..j][t]] != f && Gz(files[order[..j][t]]) != f
    {
      assert order[..j][t] == order[t];
    }
    assert f !in Touched(files, order[..j]);
  }

  /** One more worker finishing extends the run by its work. */
  lemma RunWorkersStep(fs: FileSystem, files: seq<Path>, gzip: seq<byte> -> seq<byte>, order: seq<nat>, j: nat)
    requires IsPermutation(order, |files|)
    requires j < |order|
    ensures RunWorkers(fs, files, gzip, order[..j + 1])
         == Work(RunWorkers(fs, files, gzip, order[..j]), files[order[j]], gzip)
  {
    assert order[..j + 1][..j] == order[..j];
  }

  /** Every worker of a completion order found its input: then every input was present. */
  lemma EveryWorkerRan(fs: FileSystem, files: seq<Path>, order: seq<nat>)
    requires IsPermutation(order, |files|)
    requires forall t :: 0 <= t < |order| ==> files[order[t]] in fs
    ensures AllPresent(fs, files)
  {
    forall i | 0 <= i < |files|
      ensures files[i] in fs
    {
      assert i in order;
      var t :| 0 <= t < |order| && order[t] == i;
    }
  }

  /** The workers running to completion in the order `order`, each reporting
      `(index, gz path)` as it finishes; stops at the first absent input. */
  method RunCompletions(fs: FileSystem, files: seq<Path>, gzip: seq<byte> -> seq<byte>, order: seq<nat>)
    returns (r: Result<FileSystem>, msgs: seq<(nat, Path)>)
    requires WorkFilesDisjoint(files)
    requires IsPermutation(order, |files|)
    ensures r.Ok? <==> AllPresent(fs, files)
    ensures r.Err? ==> r.error.path in files && r.error.path !in fs
    ensures r.Ok? ==> r.value == RunWorkers(fs, files, gzip, order) && msgs == Arrivals(order, GzPaths(files))
  {
    var cur := fs;
    msgs := [];
    var j := 0;
    while j < |order|
      invariant j <= |order|
      invariant cur == RunWorkers(fs, files, gzip, order[..j])
      invariant forall t :: 0 <= t < j ==> files[order[t]] in fs
      invariant |msgs| == j
      invariant forall t :: 0 <= t < j ==> msgs[t] == (order[t], Gz(files[order[t]]))
    {
      var index := order[j];
      var f := files[index];
      NextInputUntouched(fs, files, gzip, order, j);
      if f !in cur {
        return Err(NotFound(f)), msgs;
      }
      RunWorkersStep(fs, files, gzip, order, j);
      cur := Work(cur, f, gzip);
      msgs := msgs + [(index, Gz(f))];
      j := j + 1;
    }
    assert order[..j] == order;
    EveryWorkerRan(fs, files, order);
    return Ok(cur), msgs;
  }

  /** `compress_files_parallel`, the workers finishing in the order `order`.
      Fails (the source panics) when some input is absent; otherwise returns the
      `.gz` paths in input order, leaves each holding its compressed input,
      removes the inputs, and the resulting filesystem is the one running the
      workers in input order gives, so it does not depend on `order`. */
  method CompressFilesParallel(fs: FileSystem, files: seq<Path>, gzip: seq<byte> -> seq<byte>, order: seq<nat>)
    returns (r: Result<(FileSystem, seq<Path>)>)
    requires WorkFilesDisjoint(files)
    requires IsPermutation(order, |files|)
    ensures r.Ok? <==> AllPresent(fs, files)
    ensures r.Err? ==> r.error.path in files && r.error.path !in fs
    ensures r.Ok? ==>
      var (fs', gz) := r.value;
      && gz == GzPaths(files)
      && CompressedAll(fs, fs', files, gzip)
      && fs' == RunWorkers(fs, files, gzip, InOrder(|files|))
  {
    var done, msgs := RunCompletions(fs, files, gzip, order);
    if done.Err? {
      return Err(done.error);
    }
    FanInRestoresOrder(order, GzPaths(files));
    var sorted := SortByKey(msgs);
    var gz := seq(|sorted|, i requires 0 <= i < |sorted| => sorted[i].1);
    AllWorkersEffect(fs, files, gzip, order);
    WorkersCommute(fs, files, gzip, order, InOrder(|files|));
    return Ok((done.value, gz));
  }

  /** The gzip members of a list of pieces, one member per piece. */
  function Members(c: Codec, cs: seq<seq<byte>>): (ms: seq<seq<byte>>)
    ensures |ms| == |cs|
    ensures forall i :: 0 <= i < |cs| ==> ms[i] == c.compress(cs[i])
  {
    seq(|cs|, i requires 0 <= i < |cs| => c.compress(cs[i]))
  }

  /** Decompressing the members of several pieces, concatenated, gives back the
      pieces concatenated. */
  lemma {:induction false} DecompressMembers(c: Codec, cs: seq<seq<byte>>)
    requires ConcatenatesMembers(c)
    ensures c.decompress(Flatten(Members(c, cs))) == Flatten(cs)
    decreases |cs|
  {
    if cs != [] {
      assert Members(c, cs)[1..] == Members(c, cs[1..]);
      DecompressMembers(c, cs[1..]);
    }
  }
}
