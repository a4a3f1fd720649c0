# backup_wsl: the split → compress → reassemble → rotate pipeline

`backup_wsl` backs up a WSL distribution in these steps:

1. It exports the distribution to `%TEMP%\ubuntu.tar`.
2. It cuts that tar into 100 MiB files `part_0`, `part_1`, ….
3. It gzips every part on a thread pool into `part_i.gz`, and restores part order by sorting the workers' `(index, path)` reports.
4. It concatenates the `.gz` parts into `%TEMP%\ubuntu.tar.gz` and removes the parts.
5. It rotates that archive into `P:\wsl\backup\ubuntu.tar.gz`, keeping a `.bck` copy of the previous archive until the new one is in place.

This project models steps 2 to 5 over an abstract filesystem and proves what each stage promises, and what the whole run promises.

- **Filesystem.** It is a map from paths to byte sequences (`FileSystems`).
- **Paths.** `Named(s)` is a literal path. `Part(i)` is the `part_i` file beside the source. `Gz(p)` is `p` with the extension `gz`. The constructors are injective, which is what the program relies on when it names its work files.
- **Short reads.** `file.read` may return fewer bytes than the buffer holds. How many it returns is an oracle `offers` that chooses the count of each read. `ReadCount` clamps any offer into the legal range, so every count the operating system could return is covered.
- **Worker completion.** Workers finish in an arbitrary order, given as a permutation. Workers are serialised in that order. This is exact because each worker touches only its own input and its own output.
- **gzip.** It is a `Codec`, a pair of opaque functions. The multi-member property of section 2.2 of RFC 1952 is a hypothesis, `ConcatenatesMembers`: decompressing concatenated members yields the concatenated plaintexts. It is not an axiom.

The end-to-end result is `Pipeline.Backup`:

- The destination holds the gzip members of the chunks, concatenated.
- Under the multi-member property, it decompresses to the exported tar.
- No `part_i` or `part_i.gz` remains.
- The temporary archive and the backup are gone.
- Every other path, including the exported tar itself, is unchanged.

This holds whatever the read counts are (the oracle `offers`) and whatever order the workers finish in (the parameter `orders`, any permutation for each part count).

The number of pieces is `ceil(n / chunk_size)`, all but the last full, only when every read fills the buffer (`Chunker.FullReadsGiveCeiling`). Short reads give more, shorter pieces. Coverage (`Chunker.ChunksCover`) and the bounds (`Chunker.ChunksBounded`) hold for every sequence of read counts.

## Model

| member | source | states |
|---|---|---|
| Chunker.ReadCount | src/main.rs:85-90 | One read returns at most the buffer size and at most what is left. It returns 0 only at end of file or with a zero-size buffer. Any legal count the OS offers is the one taken. |
| Chunker.Chunks | src/main.rs:84-97 | A zero-size buffer or an empty source gives no pieces. Otherwise there is at least one piece, and never more pieces than source bytes. |
| Chunker.ChunksCover | src/main.rs:84-97 | With a positive buffer size, the pieces concatenated in read order are exactly the source bytes, whatever the read counts. |
| Chunker.ChunksBounded | src/main.rs:85-94 | Every piece is non-empty, because a zero-byte read ends the loop. Every piece is at most `chunk_size` bytes. |
| Chunker.FullReadsGiveCeiling | src/main.rs:85-86 | When every read fills the buffer, there are `ceil(n / chunk_size)` pieces, and all but the last are full. |
| Chunker.QuarterGigabyteScenario | src/main.rs:38 | With the 100 MiB buffer and full reads, a 250 MiB source gives three pieces of 100, 100 and 50 MiB. |
| Chunker.PieceCountFitsCounter | src/main.rs:82-96 | An export shorter than 2 GiB gives fewer than 2^31 pieces whatever the read counts, so the `i32` part counter cannot overflow. |
| Chunker.PartPathsDistinct | src/main.rs:92-96 | The returned part paths are pairwise distinct. |
| Chunker.WritePiecesEffect | src/main.rs:92-94 | After the pieces are written, `part_i` holds piece i (a stale file is truncated). Every path that is not one of those parts is unchanged. |
| Chunker.ReadLoopStep | src/main.rs:84-96 | One turn of the read loop writes the next piece to the next part. The pieces written plus the pieces still to come stay equal to all the pieces. |
| Chunker.SplitOutcome | src/main.rs:79-100 | The split's final state: the parts hold the pieces in order, the pieces cover the source, respect the bounds, and leave other paths alone. |
| Chunker.WriteParts | src/main.rs:84-97 | The read loop writes exactly the pieces, in read order, to `part_0 .. part_{k-1}`, and returns those paths. |
| Chunker.SplitFile | src/main.rs:79-100 | It fails exactly when the source is absent. Otherwise it returns `part_0 ..` in order and the parts hold the pieces. The concatenated parts equal the source when `chunk_size > 0`, and an empty source gives no parts. Every part is 1 to `chunk_size` bytes. The source and all other non-part paths are unchanged. |
| FanIn.InOrder | src/main.rs:105 | Workers finishing in input order is one legal completion order. |
| FanIn.InsertSorted | src/main.rs:120 | Inserting into a list sorted by index keeps it sorted. |
| FanIn.InsertPermutes | src/main.rs:120 | Insertion adds exactly one occurrence of the new report. |
| FanIn.SortByKeyPermutes | src/main.rs:120 | Sorting the reports by index neither loses nor invents a report. |
| FanIn.SortByKeySorted | src/main.rs:120 | The sorted reports are ordered by index. |
| FanIn.SortByKeyStrict | src/main.rs:120 | With distinct indices, the sorted reports are strictly increasing in index. |
| FanIn.KeysArePositions | src/main.rs:119-121 | n strictly increasing indices below n are exactly `0 .. n-1`, in place. |
| FanIn.FanInRestoresOrder | src/main.rs:119-121 | For every completion order, sorting the received reports by index gives `(i, output i)` at position i. |
| FanIn.CompletionOrderIrrelevant | src/main.rs:119-121 | Two completion orders give the same sorted reports. |
| Compressor.RunWorkersFrame | src/main.rs:106-114 | Workers change only their own inputs and outputs. |
| Compressor.RunWorkersEffect | src/main.rs:106-114 | After distinct workers run over present, disjoint inputs, each input is removed and its `.gz` holds the compressed input. Nothing else changes. |
| Compressor.CompressedAllUnique | src/main.rs:105-116 | The end state "every input compressed and removed, nothing else touched" is a single filesystem. |
| Compressor.AllWorkersEffect | src/main.rs:105-116 | Running all workers, in any completion order, reaches that end state. |
| Compressor.WorkersCommute | src/main.rs:105-116 | Any two completion orders leave the same filesystem. |
| Compressor.NextInputUntouched | src/main.rs:105-114 | The next worker to finish finds its input exactly as the split left it. |
| Compressor.EveryWorkerRan | src/main.rs:119 | If each of the `files_len` workers found its input, every input was present. |
| Compressor.RunCompletions | src/main.rs:105-119 | The workers run to completion in the given order and report `(index, gz path)` as they finish. The run fails exactly when some input is absent. |
| Compressor.CompressFilesParallel | src/main.rs:102-122 | It fails exactly when some input is absent. On success, position i of the result is input i with `gz`, whatever the completion order. Each `.gz` holds its compressed chunk, each chunk file is gone, and nothing else changes. The filesystem equals the one that input-order completion gives. |
| Compressor.DecompressMembers | src/main.rs:109-113 | Under the multi-member property (section 2.2 of RFC 1952), decompressing the concatenated members gives the concatenated chunks. |
| Reassembler.RemoveExisting | src/main.rs:133-137 | Removing the listed paths, skipping absent ones, gives the filesystem without exactly those paths. |
| Reassembler.CleanupIdempotent | src/main.rs:133-137 | A second cleanup pass changes nothing, and afterwards none of the listed paths exists. |
| Reassembler.CopyInto | src/main.rs:125-130 | The output is truncated, then receives the listed files' contents in list order with no framing. The copy fails exactly when a listed file is absent. |
| Reassembler.ReassembleCompressedBlocks | src/main.rs:124-140 | It fails exactly when a listed file is absent. On success the output holds exactly the in-order concatenation, no listed file remains, and every other path is unchanged. |
| Rotation.ManageOutputDir | src/main.rs:151-158 | If the destination exists, the backup becomes a copy of it. Otherwise nothing changes. Only the backup path can change. |
| Rotation.MoveTarGzFile | src/main.rs:142-148 | It fails exactly when the artifact is absent. Otherwise the destination holds the artifact's bytes, the artifact is gone, and nothing else changes. |
| Rotation.DeleteBckFile | src/main.rs:160-166 | Afterwards there is no backup, whether or not one existed. Nothing else changes. |
| Rotation.RotationProtocol | src/main.rs:61-63 | After step 1 the backup equals the old destination. If step 2 fails, both are still in place. After step 2 the destination holds the new bytes. At the end the destination holds the new bytes and the backup and the artifact are gone. No other path changes. |
| Rotation.FinalNeverDeleted | src/main.rs:142-166 | None of the three steps removes an existing destination. |
| Pipeline.PartsAreDisjoint | src/main.rs:92-106 | The parts of a split are distinct, and no part is another part's `.gz`, so the workers' files are disjoint. |
| Pipeline.CompressedContents | src/main.rs:55-56 | The compressed parts, read in part order, are the members of the chunks. |
| Pipeline.PackedFrame | src/main.rs:55-56 | After compressing and joining, no `part_i` or `part_i.gz` remains, and every path other than the temporary archive is as the split left it. |
| Pipeline.PackParts | src/main.rs:55-56 | Compressing the parts and joining them gives a temporary archive holding the members of the parts in part order. No work file remains and nothing else changes. |
| Pipeline.Backup | src/main.rs:54-63 | For any read counts and any completion orders, it fails exactly when the exported tar is absent. On success the destination holds the concatenated members of the chunks and, under the multi-member property, decompresses to the exported tar. The work files, the temporary archive and the backup are gone, and every other path is unchanged. |

## Left out

- `export_wsl_distro` (src/main.rs:71-77) runs `wsl --export` through `cmd`, which is external process I/O. The exported bytes are the input, found at `%TEMP%\ubuntu.tar`.
- The progress bar, `Args` and `update_progress_bar_message` (src/main.rs:15-29, 32, 45-67) are user interface only.
- The rayon thread pool, `num_cpus` and the mpsc channel (src/main.rs:43, 53, 103-105) are concurrency plumbing. Completion order is an arbitrary permutation and workers are serialised in that order. This is exact only because the workers' files are pairwise disjoint, which `WorkFilesDisjoint` states.
- Compressor.CompressFilesParallel, Compressor.RunCompletions: require `WorkFilesDisjoint`, which the source does not check. `main` always satisfies it, as `Pipeline.PartsAreDisjoint` shows.
- gzip internals (`GzEncoder`, `Compression::best()`, src/main.rs:109-113) belong to a foreign library. Compression is an opaque function and the multi-member property is a hypothesis.
- I/O errors other than an absent file are not modelled: permissions, a full disk, failed writes, and `exists()` racing `remove_file`. The panics of `.unwrap()` in the workers are modelled as an error result, not as a process abort.
- The filesystem state after a failure is not returned. Files left on disk by a run that fails midway are outside the model, except for the rotation's intermediate states, which `Rotation.RotationProtocol` describes.
- Windows path strings are abstracted. `with_file_name`, `with_extension` and `env::temp_dir()` become the constructors `Part` and `Gz` and the fixed name `%TEMP%`. A source file that is itself called `part_i`, so that it aliases a part, cannot be expressed: the source is always a `Named` path.
- `Named` strings are assumed not to spell a work file or a fixed path under another name. `Named("%TEMP%\part_0")` and `Part(0)` are different paths in the model but the same file on disk, and so are case variants of the destination, since Windows paths ignore case. The frame of `Pipeline.Backup` says such an alias is unchanged, which the program does not guarantee.
- Reassembler.ReassembleCompressedBlocks, Reassembler.CopyInto: require the output not to be one of the inputs. Copying a file into itself after truncating it is not modelled, and `main` never does it.
- Rotation.MoveTarGzFile: states its effect only for an artifact other than the destination. Copying a file onto itself is not modelled, and `main` never does it.
- `sort_by_key` is a stable library sort. It is modelled as an insertion sort by key. The indices are distinct, so stability plays no role.
- Chunker.SplitFile: the part index is an unbounded `nat`, but `part_number` (src/main.rs:82) is an `i32`. From 2^31 pieces on, `part_number += 1` (src/main.rs:96) panics in a debug build, and in a release build it wraps to negative names and after 2^32 pieces reuses `part_0`. So the distinct part paths and the contents claimed for them hold only below 2^31 pieces. That needs 2^31 non-empty reads, which happens only with short reads of an export of at least 2 GiB (`Chunker.PieceCountFitsCounter`). The buffer size is a `usize` and holds 100 MiB without overflow.
