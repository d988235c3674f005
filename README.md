# helen `stitch.py`: consensus stitching, modelled in Dafny

This project models how helen's `stitch.py` turns per-position base predictions into one
consensus sequence per contig. There are four parts:

- **Static batch partitioning** (`chunks` and its call with slice size
  `int(len/threads) + 1`). The ordered list of region keys is cut into contiguous slices,
  one per worker.
- **Region decoding** (the non-I/O body of `small_chunk_stitch`). The `(pos, indx)`,
  base-label and run-length arrays of every sub-chunk of a region are zipped. Entries with a
  negative position or index are skipped, and the first entry seen for each key wins. The
  keys are sorted lexicographically, and each key emits `label_decoder[base] * rle`.
- **Confident-anchor scan** (`get_confident_positions`). Two aligned rows are walked column
  by column. The scan counts the non-gap characters of each row and stops at the first
  column that completes a run of three equal columns. It returns `(-1, -1)` if there is no
  such column.
- **Overlap splice loop** (the sequential part of `create_consensus_sequence`). The regions
  are sorted by `(start, end)` and the running sequence is seeded with the first one. Each
  following region must overlap the running end. The overlap `d` is widened to
  `d + int(d * 0.2)`. The end of the running sequence and the start of the region are
  aligned, and the two are spliced at the anchor.

The code keeps its imperative form. `Chunks`, `DecodeRegion`, `ScanEntries`,
`ConfidentPositions`, `Assemble`, `DecodeGroup`, `RunGroups`, `Collect` and `StoreGroup` are
methods with loops. `SpliceNext` (the loop body of `Assemble`), `PartitionKeys` and
`CreateConsensus` are straight-line methods that call them. Each method is proved equal to a
specification function:

| method | specification function |
|---|---|
| `Chunks` | `Slices` |
| `DecodeRegion` | `RegionSequence` |
| `ConfidentPositions` | `AnchorOf` |
| `Assemble` | `Consensus` |
| `DecodeGroup` | `DecodeAll` |
| `SpliceNext` | `StepRegion` |
| `Collect`, `StoreGroup` | `Store`, `BoundsList`, `Succeeded` |
| `RunGroups` | `Outcomes` |
| `CreateConsensus` | `ContigConsensus` |

The properties the source relies on are proved as lemmas about those functions.

The global aligner (`pairwise2.align.globalxx`) is a function parameter, constrained only by
its contract `AlignerContract`: for non-empty gap-free inputs it returns two rows of equal
length, deleting `-` from each row gives back that input, and no column is `-` in both rows.
Only `alignments[0]` is consumed. For an empty window the aligner returns no alignment, so
`alignments[0]` raises; the splice step reports that as `NoAlignment`. Python's behaviour is
written out where it matters:

- `zip` stops at the shortest array.
- `str * n` is empty for `n <= 0`.
- `s[-w:]` and `s[:w]` are clamped to the length of `s`.
- `int(d * 0.2)` is taken as `d / 5`.

One piece of Python's behaviour is deliberately not followed by the splice loop: at line 157,
`s[:-0]` is empty, which loses the running sequence when the anchor ends the window. That is
recorded under Findings and modelled separately (`SpliceAsWritten`); the loop splices with
the corrected `Splice`.

The slice size is `int(n / threads) + 1`, exactly as line 111 computes it. It is not
`ceil(n / threads)`. With it there are never more than `threads` slices
(`GroupCountAtMostThreads`).

Module layout:

- `wrappers.dfy`: `Option` and `Result`.
- `sorting.dfy`: the lexicographic sort that stands in for `sorted(..., key=(e[0], e[1]))`.
- `partition.dfy`: `chunks`.
- `decode.dfy`: region decoding.
- `anchor.dfy`: the anchor scan and the aligner contract.
- `assembler.dfy`: the splice loop.
- `orchestrator.dfy`: decoding a group, collecting the outcomes, and the whole
  `create_consensus_sequence`.

## Model

| member | source | states |
|---|---|---|
| Partition.Slices | stitch.py:27-32 | the slices `names[i:i+size]` as a value; there are ceil(n / size) of them |
| Partition.CeilDivBounds | stitch.py:30-31 | the `CeilDiv(n, size)` slices of `size` elements hold the `n` names with less than one slice to spare |
| Partition.CeilDivIsCeiling | stitch.py:30-31 | the number of slices `CeilDiv(n, size)` is the rounded-up quotient `(n + size - 1) / size` |
| Partition.SlicesFlatten | stitch.py:27-32 | concatenating the slices in order gives back exactly the input list |
| Partition.SlicesSizes | stitch.py:27-32 | no slice is empty or longer than `size`; every slice but the last has exactly `size` elements |
| Partition.Chunks | stitch.py:27-32 | the append loop yields `Slices(names, size)`, so its slices rebuild the list, are non-empty, have at most `size` elements (all but the last exactly `size`), and there are ceil(n / size) of them |
| Partition.GroupSize | stitch.py:111 | the slice size `int(n / threads) + 1` is never zero, so the `range` step is valid |
| Partition.GroupCountAtMostThreads | stitch.py:111 | with slice size `int(n / threads) + 1` there are at most `threads` slices |
| Partition.PartitionKeys | stitch.py:111 | the keys are cut into `Slices(keys, int(n/threads)+1)`: they rebuild the key list, there are at most `threads` of them, and each has between 1 and `int(n/threads)+1` keys |
| Sorting.SortPairs | stitch.py:72 | `sorted` with key `(e[0], e[1])`: the result is lexicographically sorted and a permutation of the input |
| Sorting.SortedPermutationUnique | stitch.py:125 | two sorted permutations of one list are equal, so the sorted order of the keys or bounds does not depend on how it was produced |
| Sorting.SortedMembers | stitch.py:125 | sorting keeps the members and the length of the list |
| Sorting.SortDistinct | stitch.py:72 | a list without repeats sorts to a strictly increasing list of the same members |
| RegionDecoder.ZipEntries | stitch.py:62 | `zip` of the three arrays has the length of the shortest one, and its i-th triple is built from the i-th elements |
| RegionDecoder.KeysInOrder | stitch.py:67-70 | `all_positions` gets one key for every key stored in the dictionaries |
| RegionDecoder.Letter | stitch.py:14 | `label_decoder` has an entry exactly for the labels 0..4; 0 maps to the empty string and 1..4 to one of A, C, G, T |
| RegionDecoder.Repeat | stitch.py:76 | `letter * int(rle)` has `rle` times the letter's length, and is empty when `rle <= 0` |
| RegionDecoder.Render | stitch.py:76-77 | the `join` succeeds exactly when every label is in `label_decoder` (0..4; otherwise KeyError); its result holds only A, C, G and T, and its length is the sum of the run lengths of the keys whose label is 1..4 and whose run length is positive |
| RegionDecoder.SortedKeys | stitch.py:72-73 | every key of `pos_list` has a stored label, so the `itemgetter` lookups cannot miss |
| RegionDecoder.KeysInOrderMatchFirstSeen | stitch.py:67-70 | `all_positions` holds each stored key once and exactly the keys of the prediction dictionaries |
| RegionDecoder.FirstSeenKeys | stitch.py:62-70 | a key is stored exactly when its position and index are both non-negative and some zipped entry carries it |
| RegionDecoder.FirstSeenValue | stitch.py:67-69 | for a repeated key the base and run-length labels of its first occurrence are stored and later ones are ignored |
| RegionDecoder.InvalidEntriesIgnored | stitch.py:63-66 | dropping every entry with a negative position or index, whatever its labels, changes neither the stored labels nor the key set |
| RegionDecoder.DecodeIgnoresInvalidEntries | stitch.py:62-77 | the decoded sequence never depends on an entry with a negative position or index |
| RegionDecoder.DecodeSpec | stitch.py:72-77 | any repeat-free listing of the stored keys sorts to `pos_list`, which is strictly increasing; fewer than two keys is an error; otherwise the sequence is the rendering of the keys in that order |
| RegionDecoder.DecodeEntries | stitch.py:72-77 | decoding fails with the `itemgetter` error exactly when fewer than two positions were stored |
| RegionDecoder.RegionSequence | stitch.py:48-77 | the same for a region's sub-chunks: too few positions exactly when fewer than two valid keys are reported |
| RegionDecoder.ScanEntries | stitch.py:62-70 | the inner loop over one sub-chunk's zipped entries leaves the dictionaries and the key list as the first-seen fold over everything scanned so far |
| RegionDecoder.RegionSequenceIsDna | stitch.py:76-77 | a region that decodes holds only A, C, G and T |
| RegionDecoder.DecodeRegion | stitch.py:48-77 | the nested scan, sort and `join` compute `RegionSequence` of the sub-chunks in the order they are visited |
| Anchor.AnchorFrom | stitch.py:88-103 | either both results are -1 or neither is; a found anchor counts at most the non-gap length of each row |
| Anchor.AnchorOf | stitch.py:83-103 | the scan from the first column: both results are -1 or neither is, and a found anchor counts at most each row's non-gap length |
| Anchor.IsAlignment | stitch.py:150-151 | the rows of `alignments[0]` have equal length, each at least as long as its input, give back the inputs once gaps are deleted and never pair a gap with a gap |
| Anchor.RunOnAlignmentMatches | stitch.py:88-101 | on such an alignment, the three columns of a confident run are matches of real characters, never gaps |
| Anchor.AnchorFromNone | stitch.py:100-103 | the result is `(-1, -1)` exactly when no column completes a run of three equal columns |
| Anchor.AnchorFromFirstRun | stitch.py:88-101 | otherwise the result is the pair of non-gap counts of both rows through the earliest column that completes a run of three equal columns |
| Anchor.AnchorOfIdentical | stitch.py:83-103 | two identical gap-free rows of length at least three anchor at `(3, 3)` |
| Anchor.ConfidentPositions | stitch.py:83-103 | the loop over the zipped columns with its two non-gap counters and its match counter returns `AnchorOf` of the two rows |
| Assembler.Window | stitch.py:140-141 | the window is `d + int(d * 0.2)`: at least `d`, and the widening is `d / 5` rounded down |
| Assembler.Suffix | stitch.py:148 | `s[-w:]` for `w > 0` is the last `min(len(s), w)` characters |
| Assembler.Prefix | stitch.py:149 | `s[:w]` is the first `min(len(s), w)` characters |
| Assembler.DropLast | stitch.py:157 | `s` without its last `k` characters, empty when `k >= len(s)`, is a prefix of `s` of length `len(s) - min(len(s), k)` |
| Assembler.PyDropLast | stitch.py:157 | Python's `s[:-k]`: empty when `k == 0`, otherwise `DropLast(s, k)` |
| Assembler.Splice | stitch.py:157-160 | the new running sequence has length `len(running) - min(len(running), w - pos_a) + len(next) - pos_b` and keeps gap-freeness and A/C/G/T-only content |
| Assembler.SpliceKeepsOutsideWindow | stitch.py:157-160 | the part of the running sequence before the window is a prefix of the result, and the part of the next region after its window is a suffix of it |
| Assembler.SpliceAsWritten | stitch.py:157-160 | the splice as written agrees with `Splice` when `pos_a < w`; when `pos_a == w` it keeps nothing of the running sequence |
| Assembler.AnchorAtWindowEnd | stitch.py:140-151 | for a running sequence GGGTTACG ending at 10 and a region (7, 12) reading ACGTT, the window is 3, both windows read ACG, and the anchor is `(3, 3)` |
| Assembler.AsWrittenLosesRunningSequence | stitch.py:157 | in that situation the code as written leaves "TT", while the intended splice gives "GGGTTACGTT" |
| Assembler.StepRegion | stitch.py:134-164 | one region: a splice is made only for a region that starts before the running end, and the result is gap-free, and holds only A, C, G and T when both inputs do |
| Assembler.StepRegionErrors | stitch.py:138-164 | one region fails with no-overlap exactly when `start >= running_end`, with no-alignment (the `IndexError` of `alignments[0]`) exactly when it overlaps but one of the two windows is empty, and otherwise only with the missing anchor for its bounds |
| Assembler.StepBounds | stitch.py:148-151 | for gap-free inputs both windows are gap-free, and a found anchor lies within the windows and within the next region |
| Assembler.Stitch | stitch.py:133-164 | the loop over the remaining regions never reports an empty list, and on success it yields a gap-free sequence, which holds only A, C, G and T when all inputs do |
| Assembler.Consensus | stitch.py:125-168 | the contig result is the empty-list error exactly when there are no bounds; a consensus holds only A, C, G and T when all regions do |
| Assembler.StitchErrors | stitch.py:138-164 | the loop succeeds only when every region starts before the end of its predecessor; when they all do, the only possible failures are an empty window and a missing anchor |
| Assembler.ConsensusErrors | stitch.py:125-164 | the same for the contig: success requires every region, in `(start, end)` order, to overlap the one before it, and then only an empty window or a missing anchor can fail |
| Assembler.ConsensusIgnoresCollectionOrder | stitch.py:125 | any permutation of the collected bounds gives the same consensus |
| Assembler.IdenticalWindowSplice | stitch.py:140-161 | when the two windows are the same gap-free string of at least three characters and the aligner aligns it column by column, the anchor is (3, 3) and the corrected result is the running sequence without its window, followed by the whole next region; line 157 as written gives the same for a window wider than three and only the next region after its first three characters for a window of three |
| Assembler.GapScenario | stitch.py:162-164 | regions (0, 500) and (600, 1100), in any order of collection, abort with the no-overlap error for start 600 and running end 500 |
| Assembler.SpliceNext | stitch.py:134-164 | the loop body for one region computes `StepRegion` |
| Assembler.Assemble | stitch.py:125-168 | sorting, seeding and the splice loop compute `Consensus` of the bounds |
| Orchestrator.DecodeAll | stitch.py:38-80 | a group that decodes yields one region tuple per key |
| Orchestrator.DecodeAllOk | stitch.py:38-80 | a group decodes exactly when each of its regions does, and then it yields one `(contig, start, end, sequence)` tuple per key, in order |
| Orchestrator.DecodeAllFirstError | stitch.py:40-80 | a group fails with the error of its first failing region |
| Orchestrator.DecodeAllPrefixError | stitch.py:40-80 | once a prefix of the group fails, the whole group fails with the same error |
| Orchestrator.DecodeAllSnoc | stitch.py:40-78 | decoding one more key appends its tuple to a group that decoded so far, or fails the group with that key's error |
| Orchestrator.DecodeGroup | stitch.py:35-80 | the loop over the group's keys computes `DecodeAll` with the region decoder |
| Orchestrator.BoundsList | stitch.py:119 | `sequence_chunks` has one entry per collected region, with that region's bounds, in order |
| Orchestrator.SucceededKeepsGroups | stitch.py:114-119 | every region of every group that succeeded is collected, as often as the group returned it |
| Orchestrator.StoreSize | stitch.py:118 | `chunk_name_to_sequence` has at most one entry per collected region; duplicate bounds collapse |
| Orchestrator.SucceededMembers | stitch.py:114-121 | a region is collected exactly when some group that succeeded produced it; a failed group only loses its own regions |
| Orchestrator.StoreKeys | stitch.py:117-119 | the sequence map has an entry for exactly the bounds in `sequence_chunks` |
| Orchestrator.StoreKeepsLast | stitch.py:118 | for duplicate bounds the map keeps the sequence of the last collected region with those bounds |
| Orchestrator.StoreValues | stitch.py:118 | every value in the map is the sequence of some collected region |
| Orchestrator.StoreGroup | stitch.py:117-119 | the inner loop adds one group's regions to the map and the bounds list as the fold over all regions so far |
| Orchestrator.Collect | stitch.py:114-122 | the `as_completed` loop leaves the map and the bounds list built from the regions of the successful groups, in completion order |
| Orchestrator.Outcomes | stitch.py:113-116 | there is one outcome per finished group |
| Orchestrator.Outcome | stitch.py:114-116 | a group's future yields its regions exactly when every region of the group decodes, and then one per key |
| Orchestrator.OutcomesAreDna | stitch.py:113-119 | every region handed back by a worker holds only A, C, G and T |
| Orchestrator.RunGroups | stitch.py:113-116 | running the workers in completion order yields `Outcomes` |
| Orchestrator.ContigConsensus | stitch.py:106-168 | with no region keys the contig fails at `sequence_chunks[0]`; a consensus that is produced holds only A, C, G and T |
| Orchestrator.CreateConsensus | stitch.py:106-168 | partition, decode, collect and assemble compute `ContigConsensus` |
| Orchestrator.DecodedGroupIsDna | stitch.py:76-78 | when the region decoder only yields A/C/G/T strings, every region tuple of a group that decodes has an A/C/G/T-only sequence |
| Orchestrator.CollectedReady | stitch.py:117-135 | every bounds pair in `sequence_chunks` has a gap-free, A/C/G/T-only sequence in the map, so the map lookups of the splice loop succeed |

## Left out

- HDF5 reads and store traversal (lines 41-56, 171-185) are not modelled. The model takes
  each region's bounds and its sub-chunk arrays as inputs. The sub-chunk names come from a
  Python `set`, so their visiting order is arbitrary; here it is the order of the input
  sequence, and first-seen-wins is stated for that order.
- `get_file_paths_from_directory`, output file writing and argument parsing are I/O and are
  not modelled.
- `ProcessPoolExecutor` and futures are replaced by running the groups one after another.
  The order in which they finish is the `completion` parameter, a permutation of the group
  indices.
- A worker exception becomes a failed outcome (`None`). The message written to stderr and
  `fut._result = None` are not modelled.
- `pairwise2.align.globalxx` is a foreign library. Only its contract is modelled: for
  non-empty inputs, equal-length rows that give back the inputs once their gaps are deleted
  and have no gap-against-gap column; for an empty input, no alignment. Its scoring, its choice among
  optimal alignments and its optimality are not modelled. So properties that depend on which
  alignment it picks are proved only under an explicit assumption about the aligner's output
  (`IdenticalWindowSplice`).
- Floating point: `int(d * BASE_ERROR_RATE)` is taken as the integer `d / 5`.
- numpy dtype conversions are not modelled. Labels are unbounded integers.
- `print` and `sys.stderr.write` diagnostics are not modelled, including the oversize-window
  warnings at lines 143-146, which do not change control flow.
- `exit()` at line 164 becomes the error `NoOverlap(start, running_end)`. `return None` at
  line 155 becomes `NoAnchor(start, end)`. The `IndexError` of `alignments[0]` at line 151
  on an empty window (an empty running sequence or an empty region sequence, such as one
  decoded from labels that are all 0) becomes `NoAlignment(start, end)`; in Python it ends
  the whole run. The `IndexError` of `sequence_chunks[0]` on an
  empty list becomes `NoRegions`.
- `label_decoder[base]` for a label outside 0..4 becomes `UnknownLabel(base)`.
- `operator.itemgetter` with zero keys, or the `list()` of the scalar it returns for one key,
  becomes `TooFewPositions`. Both raise in Python and fail the group.
- The map key `(contig, start, end)` is modelled as `(start, end)`. Every tuple a worker
  returns carries the contig it was given, so the two keys coincide.
- Partition.Chunks: requires `size > 0`. Python's `range` with step 0 raises, and the only
  caller passes `int(n / threads) + 1 >= 1`.
- Assembler.StepRegion, Assembler.SpliceNext, Assembler.IdenticalWindowSplice: the splice
  loop uses the corrected `Splice`, which drops the last `overlap_bases - pos_a` characters of
  the running sequence, and so differs from line 157 as written when `pos_a == overlap_bases`:
  there the source keeps none of the running sequence (see Findings). `Stitch`, `Consensus`,
  `Assemble`, `ContigConsensus` and `CreateConsensus` inherit this. `SpliceAsWritten` states
  the as-written result and equals `Splice` whenever `pos_a < overlap_bases`, and
  `IdenticalWindowSplice` states both results for identical windows.
- Orchestrator.CreateConsensus: requires `threads > 0`. Line 111 divides by `threads`, and an
  executor with no workers cannot be created.

## Findings

| source | as written | input that shows it | evidently intended | confidence | as-written member | corrected member |
|---|---|---|---|---|---|---|
| stitch.py:157 | `running_sequence[:-(overlap_bases - pos_a)]` is `running_sequence[:-0]`, the empty string, when the anchor falls on the last character of the window (`pos_a == overlap_bases`), so the whole running sequence is lost | running sequence GGGTTACG ending at 10, next region (7, 12) reading ACGTT: window 3, anchor (3, 3), the result is "TT" | drop the last `overlap_bases - pos_a` characters, none when that is 0; the result is "GGGTTACGTT" | not executed | Assembler.SpliceAsWritten, Assembler.AsWrittenLosesRunningSequence | Assembler.Splice |
