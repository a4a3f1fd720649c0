/**
 The chunker (`split_file`): reads the source sequentially into a buffer of
 `chunkSize` bytes and writes every non-empty read out as `part_0`, `part_1`, ...
 beside the source. A read may deliver fewer bytes than the buffer holds; how many
 it delivers is left to an oracle, so every property below holds whatever the
 operating system does.
 */
module Chunker {
  import opened FileSystems

  /** The 100 MiB chunk size the program uses. */
  const ChunkSize: nat := 100 * 1024 * 1024

  function Min(a: nat, b: nat): nat {
    if a <= b then a else b
  }

  /** The byte count one `read` into a buffer of `want` bytes returns when
      `remaining` bytes are left, the oracle having offered `offer`. Zero exactly
      when the buffer is empty or the file is exhausted; otherwise between one and
      what fits and is left, and every such count is the one some offer yields. */
  function ReadCount(want: nat, remaining: nat, offer: nat): (c: nat)
    ensures c <= want && c <= remaining
    ensures c == 0 <==> want == 0 || remaining == 0
    ensures 1 <= offer <= want && offer <= remaining ==> c == offer
  {
    if want == 0 || remaining == 0 then 0
    else if offer == 0 then 1
    else Min(offer, Min(want, remaining))
  }

  /** The pieces the read loop cuts `rest` into, read number `readNo` being next:
      a zero-byte read ends the loop, every other read becomes one piece. */
  function Chunks(rest: seq<byte>, chunkSize: nat, offers: nat -> nat, readNo: nat): (cs: seq<seq<byte>>)
    ensures chunkSize == 0 || rest == [] ==> cs == []
    ensures chunkSize > 0 && rest != [] ==> cs != []
    ensures |cs| <= |rest|
    decreases |rest|
  {
    var n := ReadCount(chunkSize, |rest|, offers(readNo));
    if n == 0 then [] else [rest[..n]] + Chunks(rest[n..], chunkSize, offers, readNo + 1)
  }

  /** Coverage: with a positive chunk size the pieces, concatenated in order, are
      exactly the bytes that were read, whatever the read counts were. */
  lemma {:induction false} ChunksCover(rest: seq<byte>, chunkSize: nat, offers: nat -> nat, readNo: nat)
    requires chunkSize > 0
    ensures Flatten(Chunks(rest, chunkSize, offers, readNo)) == rest
    decreases |rest|
  {
    var n := ReadCount(chunkSize, |rest|, offers(readNo));
    if n > 0 {
      var cs := Chunks(rest, chunkSize, offers, readNo);
      ChunksCover(rest[n..], chunkSize, offers, readNo + 1);
      assert cs[1..] == Chunks(rest[n..], chunkSize, offers, readNo + 1);
      assert rest[..n] + rest[n..] == rest;
    }
  }

  /** Every piece is non-empty (a zero-byte read ends the loop) and fits the buffer. */
  lemma {:induction false} ChunksBounded(rest: seq<byte>, chunkSize: nat, offers: nat -> nat, readNo: nat)
    ensures forall i :: 0 <= i < |Chunks(rest, chunkSize, offers, readNo)| ==>
              0 < |Chunks(rest, chunkSize, offers, readNo)[i]| <= chunkSize
    decreases |rest|
  {
    var n := ReadCount(chunkSize, |rest|, offers(readNo));
    if n > 0 {
      var cs := Chunks(rest, chunkSize, offers, readNo);
      var tail := Chunks(rest[n..], chunkSize, offers, readNo + 1);
      ChunksBounded(rest[n..], chunkSize, offers, readNo + 1);
      assert cs == [rest[..n]] + tail;
      forall i | 0 <= i < |cs|
        ensures 0 < |cs[i]| <= chunkSize
      {
        if i > 0 {
          assert cs[i] == tail[i - 1];
        }
      }
    }
  }

  /** One step of the read loop: a non-empty read moves one piece from the pieces
      still to come onto the pieces already written. */
  lemma ChunksStep(written: seq<seq<byte>>, rest: seq<byte>, whole: seq<seq<byte>>,
                   chunkSize: nat, offers: nat -> nat)
    requires written + Chunks(rest, chunkSize, offers, |written|) == whole
    requires ReadCount(chunkSize, |rest|, offers(|written|)) > 0
    ensures var n := ReadCount(chunkSize, |rest|, offers(|written|));
            (written + [rest[..n]]) + Chunks(rest[n..], chunkSize, offers, |written| + 1) == whole
  {
    var n := ReadCount(chunkSize, |rest|, offers(|written|));
    var later := Chunks(rest[n..], chunkSize, offers, |written| + 1);
    var piece := [rest[..n]];
    assert Chunks(rest, chunkSize, offers, |written|) == piece + later;
    assert whole == written + (piece + later);
    assert written + (piece + later) == (written + piece) + later;
  }

  lemma MulMonotone(x: nat, y: nat, c: nat)
    requires x <= y
    ensures x * c <= y * c
  {
    var d := y - x;
    assert y * c == x * c + d * c;
  }

  /** Euclidean division is determined by quotient and remainder. */
  lemma DivisionUnique(a: nat, c: nat, q: nat, rem: nat)
    requires 0 <= rem < c
    requires a == q * c + rem
    ensures a / c == q
  {
    var q' := a / c;
    assert a == q' * c + a % c;
    if q' < q {
      MulMonotone(q' + 1, q, c);
    } else if q' > q {
      MulMonotone(q + 1, q', c);
    }
  }

  /** Rounding `len / chunkSize` up: one more piece per full chunk. */
  lemma CeilingStep(len: nat, chunkSize: nat)
    requires 0 < chunkSize
    ensures 0 < len <= chunkSize ==> (len + chunkSize - 1) / chunkSize == 1
    ensures chunkSize < len ==>
      (len + chunkSize - 1) / chunkSize == 1 + (len - chunkSize + chunkSize - 1) / chunkSize
  {
    if 0 < len <= chunkSize {
      DivisionUnique(len + chunkSize - 1, chunkSize, 1, len - 1);
    }
    if chunkSize < len {
      var x := len - chunkSize + chunkSize - 1;
      var q := x / chunkSize;
      assert x == q * chunkSize + x % chunkSize;
      DivisionUnique(len + chunkSize - 1, chunkSize, q + 1, x % chunkSize);
    }
  }

  /** With no short reads (every read fills the buffer or drains the file) the
      number of pieces is the source length divided by the chunk size, rounded up,
      and every piece but the last is a full chunk. */
  lemma {:induction false} FullReadsGiveCeiling(rest: seq<byte>, chunkSize: nat, offers: nat -> nat, readNo: nat)
    requires chunkSize > 0
    requires forall k :: offers(k) >= chunkSize
    ensures var cs := Chunks(rest, chunkSize, offers, readNo);
            && |cs| == (|rest| + chunkSize - 1) / chunkSize
            && forall i :: 0 <= i < |cs| - 1 ==> |cs[i]| == chunkSize
    decreases |rest|
  {
    if rest != [] {
      var n := ReadCount(chunkSize, |rest|, offers(readNo));
      assert n == Min(chunkSize, |rest|);
      assert Chunks(rest, chunkSize, offers, readNo)
        == [rest[..n]] + Chunks(rest[n..], chunkSize, offers, readNo + 1);
      FullReadsGiveCeiling(rest[n..], chunkSize, offers, readNo + 1);
      CeilingStep(|rest|, chunkSize);
    }
  }

  /** A 250 MiB source read in full 100 MiB blocks gives three pieces of 100 MiB,
      100 MiB and 50 MiB. */
  lemma QuarterGigabyteScenario(data: seq<byte>, offers: nat -> nat)
    requires |data| == 250 * 1024 * 1024
    requires forall k :: offers(k) >= ChunkSize
    ensures var cs := Chunks(data, ChunkSize, offers, 0);
      && |cs| == 3
      && |cs[0]| == ChunkSize && |cs[1]| == ChunkSize
      && |cs[2]| == 50 * 1024 * 1024
  {
    var cs := Chunks(data, ChunkSize, offers, 0);
    FullReadsGiveCeiling(data, ChunkSize, offers, 0);
    ChunksCover(data, ChunkSize, offers, 0);
    FlattenLength(cs);
    assert TotalLength(cs[2..]) == |cs[2]| by {
      assert cs[2..][1..] == [];
    }
    assert cs[1..][1..] == cs[2..];
    assert TotalLength(cs[1..]) == |cs[1]| + TotalLength(cs[2..]);
  }

  /** The part counter of `split_file` is a signed 32-bit integer. */
  const PartCounterLimit: nat := 0x8000_0000

  /** An export shorter than 2 GiB gives fewer pieces than the part counter can
      number, whatever the read counts, so the counter never overflows. */
  lemma PieceCountFitsCounter(data: seq<byte>, chunkSize: nat, offers: nat -> nat)
    requires |data| < PartCounterLimit
    ensures |Chunks(data, chunkSize, offers, 0)| < PartCounterLimit
  {
  }

  /** The paths `part_0` .. `part_{n-1}`. */
  function PartPaths(n: nat): (ps: seq<Path>)
    ensures |ps| == n
    ensures forall i :: 0 <= i < n ==> ps[i] == Part(i)
  {
    seq(n, i requires 0 <= i => Part(i))
  }

  lemma PartPathsExtend(n: nat)
    ensures PartPaths(n + 1) == PartPaths(n) + [Part(n)]
  {
  }

  lemma PartPathsDistinct(n: nat)
    ensures forall i, j :: 0 <= i < j < n ==> PartPaths(n)[i] != PartPaths(n)[j]
  {
  }

  /** `fs` after the pieces `ws` have been written to `part_0`, `part_1`, ... in turn. */
  function WritePieces(fs: FileSystem, ws: seq<seq<byte>>): FileSystem
    decreases |ws|
  {
    if ws == [] then fs
    else WritePieces(fs, ws[..|ws| - 1])[Part(|ws| - 1) := ws[|ws| - 1]]
  }

  /** Writing the pieces leaves `part_i` holding piece `i` and every other path as it was. */
  lemma {:induction false} WritePiecesEffect(fs: FileSystem, ws: seq<seq<byte>>)
    ensures forall i :: 0 <= i < |ws| ==> Part(i) in WritePieces(fs, ws) && WritePieces(fs, ws)[Part(i)] == ws[i]
    ensures forall p: Path :: !(p.Part? && p.index < |ws|) ==> SameAt(fs, WritePieces(fs, ws), p)
    decreases |ws|
  {
    if ws != [] {
      var k := |ws| - 1;
      var prev := WritePieces(fs, ws[..k]);
      WritePiecesEffect(fs, ws[..k]);
      forall p: Path | !(p.Part? && p.index < |ws|)
        ensures SameAt(fs, WritePieces(fs, ws), p)
      {
        assert SameAt(fs, prev, p);
      }
      forall i | 0 <= i < k
        ensures Part(i) in WritePieces(fs, ws) && WritePieces(fs, ws)[Part(i)] == ws[i]
      {
        assert ws[..k][i] == ws[i];
      }
    }
  }

  /** Writing one more piece updates exactly the next part. */
  lemma WritePiecesStep(fs: FileSystem, ws: seq<seq<byte>>, piece: seq<byte>)
    ensures WritePieces(fs, ws + [piece]) == WritePieces(fs, ws)[Part(|ws|) := piece]
  {
    assert (ws + [piece])[..|ws|] == ws;
  }

  /** One turn of the read loop keeps its three invariants: the next piece goes
      to the next part, the pieces written and still to come make up `whole`, and
      the part list grows by the next part path. */
  lemma ReadLoopStep(fs: FileSystem, written: seq<seq<byte>>, rest: seq<byte>,
                     whole: seq<seq<byte>>, chunkSize: nat, offers: nat -> nat)
    requires written + Chunks(rest, chunkSize, offers, |written|) == whole
    requires ReadCount(chunkSize, |rest|, offers(|written|)) > 0
    ensures var n := ReadCount(chunkSize, |rest|, offers(|written|));
      var written' := written + [rest[..n]];
      && WritePieces(fs, written)[Part(|written|) := rest[..n]] == WritePieces(fs, written')
      && written' + Chunks(rest[n..], chunkSize, offers, |written'|) == whole
      && PartPaths(|written|) + [Part(|written|)] == PartPaths(|written'|)
  {
    var n := ReadCount(chunkSize, |rest|, offers(|written|));
    ChunksStep(written, rest, whole, chunkSize, offers);
    WritePiecesStep(fs, written, rest[..n]);
    PartPathsExtend(|written|);
  }

  /** The state `split_file` leaves behind for the source bytes `data`: the part
      paths list the pieces in order, each piece is non-empty and fits the buffer,
      with a non-zero buffer the pieces give back `data`, and no other path changes. */
  lemma SplitOutcome(fs: FileSystem, data: seq<byte>, chunkSize: nat, offers: nat -> nat)
    ensures var cs := Chunks(data, chunkSize, offers, 0);
      var fs' := WritePieces(fs, cs);
      var parts := PartPaths(|cs|);
      && AllPresent(fs', parts)
      && Contents(fs', parts) == cs
      && (chunkSize > 0 ==> Flatten(Contents(fs', parts)) == data)
      && (forall i :: 0 <= i < |parts| ==> 0 < |fs'[parts[i]]| <= chunkSize)
      && (forall p: Path :: !(p.Part? && p.index < |parts|) ==> SameAt(fs, fs', p))
  {
    var cs := Chunks(data, chunkSize, offers, 0);
    WritePiecesEffect(fs, cs);
    ChunksBounded(data, chunkSize, offers, 0);
    if chunkSize > 0 {
      ChunksCover(data, chunkSize, offers, 0);
    }
  }

  /** The read loop of `split_file` on the source bytes `data`: writes each
      non-empty read to the next `part_i` and stops at the first zero-byte read. */
  method WriteParts(fs: FileSystem, data: seq<byte>, chunkSize: nat, offers: nat -> nat)
    returns (fs': FileSystem, parts: seq<Path>)
    ensures parts == PartPaths(|Chunks(data, chunkSize, offers, 0)|)
    ensures fs' == WritePieces(fs, Chunks(data, chunkSize, offers, 0))
  {
    fs' := fs;
    parts := [];
    var rest := data;
    ghost var written: seq<seq<byte>> := [];
    while true
      invariant parts == PartPaths(|written|)
      invariant written + Chunks(rest, chunkSize, offers, |written|) == Chunks(data, chunkSize, offers, 0)
      invariant fs' == WritePieces(fs, written)
      decreases |rest|
    {
      var bytesRead := ReadCount(chunkSize, |rest|, offers(|parts|));
      if bytesRead == 0 {
        break;
      }
      var piece := rest[..bytesRead];
      var k := |parts|;
      ReadLoopStep(fs, written, rest, Chunks(data, chunkSize, offers, 0), chunkSize, offers);
      fs' := fs'[Part(k) := piece];
      written := written + [piece];
      parts := parts + [Part(k)];
      rest := rest[bytesRead..];
    }
    assert Chunks(rest, chunkSize, offers, |written|) == [];
    assert written == Chunks(data, chunkSize, offers, 0);
  }

  /** `split_file`: fails if the source is absent; otherwise writes the pieces
      `Chunks(source bytes)` to `part_0`, `part_1`, ... (truncating any stale file
      of that name), returns their paths in order, and touches nothing else. The
      pieces are non-empty, fit the buffer and, concatenated, give back the source. */
  method SplitFile(fs: FileSystem, sourceName: string, chunkSize: nat, offers: nat -> nat)
    returns (r: Result<(FileSystem, seq<Path>)>)
    ensures Named(sourceName) !in fs <==> r.Err?
    ensures r.Err? ==> r.error == NotFound(Named(sourceName))
    ensures r.Ok? ==>
      var (fs', parts) := r.value;
      var cs := Chunks(fs[Named(sourceName)], chunkSize, offers, 0);
      && parts == PartPaths(|cs|)
      && (fs[Named(sourceName)] == [] || chunkSize == 0 ==> parts == [])
      && AllPresent(fs', parts)
      && Contents(fs', parts) == cs
      && (chunkSize > 0 ==> Flatten(Contents(fs', parts)) == fs[Named(sourceName)])
      && (forall i :: 0 <= i < |parts| ==> 0 < |fs'[parts[i]]| <= chunkSize)
      && (forall p: Path :: !(p.Part? && p.index < |parts|) ==> SameAt(fs, fs', p))
  {
    var source := Named(sourceName);
    if source !in fs {
      return Err(NotFound(source));
    }
    var data := fs[source];
    var fs', parts := WriteParts(fs, data, chunkSize, offers);
    SplitOutcome(fs, data, chunkSize, offers);
    return Ok((fs', parts));
  }
}
