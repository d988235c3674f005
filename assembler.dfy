/**
 * The sequential part of `create_consensus_sequence`: sort the decoded regions
 * by `(start, end)`, seed the running sequence with the first one and splice
 * every following region onto it at a confident anchor inside the widened
 * overlap window.
 */
module Assembler {
  import opened Wrappers
  import opened Sorting
  import opened Anchor
  import opened RegionDecoder

  datatype AssemblyError =
    | NoRegions                               // `sequence_chunks[0]` on an empty list
    | NoOverlap(start: int, runningEnd: int)  // the `exit()` branch
    | NoAnchor(start: int, end: int)          // `return None` after an invalid overlap
    | NoAlignment(start: int, end: int)       // `alignments[0]` on the empty list the aligner
                                              // returns when a window is empty (IndexError)

  /** The global aligner; it is consumed through `alignments[0]` only. */
  type Aligner = (string, string) -> (string, string)

  function Min(a: int, b: int): int {
    if a <= b then a else b
  }

  /** The overlap window: the nominal overlap `d` widened by `int(d * 0.2)`, i.e. `d / 5`. */
  function Window(d: nat): (w: nat)
    ensures d <= w && 5 * (w - d) <= d < 5 * (w - d) + 5
  {
    d + d / 5
  }

  /** `s[-w:]` for `w > 0`: the last `w` characters, or all of `s` when it is shorter. */
  function Suffix(s: string, w: nat): (r: string)
    requires w > 0
    ensures |r| == Min(|s|, w) && r == s[|s| - |r|..]
  {
    if w >= |s| then s else s[|s| - w..]
  }

  /** `s[:w]`: the first `w` characters, or all of `s` when it is shorter. */
  function Prefix(s: string, w: nat): (r: string)
    ensures |r| == Min(|s|, w) && r == s[..|r|]
  {
    if w >= |s| then s else s[..w]
  }

  /** `s` without its last `k` characters (nothing left when `k >= |s|`). */
  function DropLast(s: string, k: nat): (r: string)
    ensures |r| == |s| - Min(|s|, k) && r == s[..|r|]
  {
    if k >= |s| then [] else s[..|s| - k]
  }

  /** `s[:-k]` as Python evaluates it: for `k == 0` this is `s[:0]`, the empty string. */
  function PyDropLast(s: string, k: nat): (r: string)
    ensures k == 0 ==> r == []
    ensures k > 0 ==> r == DropLast(s, k)
  {
    if k == 0 then [] else if k >= |s| then [] else s[..|s| - k]
  }

  /** The splice: keep the running sequence up to the anchor, that is all of it but the
      `w - pa` characters of the window after the anchor, then the next region from its
      anchor on. */
  function Splice(running: string, next: string, w: nat, pa: nat, pb: nat): (r: string)
    requires pa <= w && pb <= w && pb <= |next|
    ensures |r| == |running| - Min(|running|, w - pa) + |next| - pb
    ensures GapFree(running) && GapFree(next) ==> GapFree(r)
    ensures IsDna(running) && IsDna(next) ==> IsDna(r)
  {
    DropLast(running, w - pa) + next[pb..]
  }

  /** Everything of the running sequence before the window and everything of the next
      region after its window is kept unchanged by the splice. */
  lemma SpliceKeepsOutsideWindow(running: string, next: string, w: nat, pa: nat, pb: nat)
    requires pa <= w && pb <= w && pb <= |next|
    ensures w <= |running| ==> running[..|running| - w] <= Splice(running, next, w, pa, pb)
    ensures w <= |next| ==> var r := Splice(running, next, w, pa, pb);
      |next| - w <= |r| && r[|r| - (|next| - w)..] == next[w..]
  {
  }

  /** The splice as line 157 of the stitcher writes it, with Python's `[:-k]`: it agrees with
      Splice except when the anchor is at the very end of the window, where it keeps nothing
      of the running sequence. */
  function SpliceAsWritten(running: string, next: string, w: nat, pa: nat, pb: nat): (r: string)
    requires pa <= w && pb <= w && pb <= |next|
    ensures pa < w ==> r == Splice(running, next, w, pa, pb)
    ensures pa == w ==> r == next[pb..]
  {
    PyDropLast(running, w - pa) + next[pb..]
  }

  /** A region of bounds (7, 12) and sequence ACGTT after a running sequence GGGTTACG ending
      at 10: the window is 3, both windows read ACG and the anchor is (3, 3). */
  lemma AnchorAtWindowEnd()
    ensures Window(10 - 7) == 3
    ensures Suffix("GGGTTACG", 3) == "ACG" && Prefix("ACGTT", 3) == "ACG"
    ensures AnchorOf("ACG", "ACG") == (3, 3)
  {
    assert GapFree("ACG");
    AnchorOfIdentical("ACG");
  }

  /** In that situation line 157 as written keeps nothing of the running sequence, while
      dropping the last `w - pa = 0` characters keeps all of it. */
  lemma AsWrittenLosesRunningSequence()
    ensures SpliceAsWritten("GGGTTACG", "ACGTT", 3, 3, 3) == "TT"
    ensures Splice("GGGTTACG", "ACGTT", 3, 3, 3) == "GGGTTACGTT"
  {
  }

  /** Every region to be spliced has a gap-free sequence. */
  ghost predicate Ready(rest: seq<Pair>, seqs: map<Pair, string>) {
    forall b :: b in rest ==> b in seqs && GapFree(seqs[b])
  }

  /** One pass of the loop body for the region with bounds `b` and sequence `next`: a region
      starting at or after the running end is a fatal gap; otherwise the widened window of the
      running sequence and of the region are aligned (an empty window yields no alignment),
      and the splice is made at the anchor, unless there is none. */
  function StepRegion(running: string, runningEnd: int, b: Pair, next: string, align: Aligner)
    : (r: Result<string, AssemblyError>)
    requires GapFree(running) && GapFree(next) && AlignerContract(align)
    ensures r.Ok? ==> GapFree(r.value) && b.0 < runningEnd
    ensures r.Ok? && IsDna(running) && IsDna(next) ==> IsDna(r.value)
  {
    if b.0 >= runningEnd then Err(NoOverlap(b.0, runningEnd))
    else
      var w := Window(runningEnd - b.0);
      var suffix := Suffix(running, w);
      var prefix := Prefix(next, w);
      if suffix == [] || prefix == [] then Err(NoAlignment(b.0, b.1))
      else
        var rows := align(suffix, prefix);
        var anchor := AnchorOf(rows.0, rows.1);
        if anchor.0 == -1 || anchor.1 == -1 then Err(NoAnchor(b.0, b.1))
        else
          StepBounds(running, next, w, suffix, prefix, rows, anchor);
          Ok(Splice(running, next, w, anchor.0, anchor.1))
  }

  /** How one region fails: with no-overlap exactly when it starts at or after the running end,
      with no-alignment exactly when it overlaps but one of the two windows is empty, and
      otherwise only with a missing anchor. */
  lemma StepRegionErrors(running: string, runningEnd: int, b: Pair, next: string, align: Aligner)
    requires GapFree(running) && GapFree(next) && AlignerContract(align)
    ensures var r := StepRegion(running, runningEnd, b, next, align);
      && (b.0 >= runningEnd <==> r == Err(NoOverlap(b.0, runningEnd)))
      && (r == Err(NoAlignment(b.0, b.1)) <==> b.0 < runningEnd && (running == [] || next == []))
      && (r.Err? ==> r.error.NoOverlap? || r.error == NoAlignment(b.0, b.1) || r.error == NoAnchor(b.0, b.1))
  {
  }

  /** The splice loop from a running sequence ending at `runningEnd` over the remaining
      regions, in order; the first failing step ends it. */
  function Stitch(running: string, runningEnd: int, rest: seq<Pair>, seqs: map<Pair, string>, align: Aligner)
    : (r: Result<string, AssemblyError>)
    requires GapFree(running) && Ready(rest, seqs) && AlignerContract(align)
    ensures r.Ok? ==> GapFree(r.value)
    ensures r.Err? ==> !r.error.NoRegions?
    ensures r.Ok? && IsDna(running) && (forall b :: b in rest ==> IsDna(seqs[b])) ==> IsDna(r.value)
    decreases |rest|
  {
    if rest == [] then Ok(running)
    else
      match StepRegion(running, runningEnd, rest[0], seqs[rest[0]], align)
      case Err(e) => Err(e)
      case Ok(spliced) =>
        assert Ready(rest[1..], seqs);
        Stitch(spliced, rest[0].1, rest[1..], seqs, align)
  }

  /** The aligner's contract keeps both anchor counts within the window. */
  lemma StepBounds(running: string, next: string, w: nat, suffix: string, prefix: string,
                   rows: (string, string), anchor: (int, int))
    requires w > 0 && GapFree(running) && GapFree(next)
    requires suffix == Suffix(running, w) && prefix == Prefix(next, w)
    requires suffix != [] && prefix != []
    requires IsAlignment(suffix, prefix, rows) && anchor == AnchorOf(rows.0, rows.1)
    requires anchor.0 != -1
    ensures GapFree(suffix) && GapFree(prefix)
    ensures 0 <= anchor.0 <= |suffix| <= w && 0 <= anchor.1 <= |prefix| <= w && anchor.1 <= |next|
  {
  }

  /** `sorted(sequence_chunks, key=lambda e: (e[1], e[2]))`, then the seed and the loop. */
  function Consensus(bounds: seq<Pair>, seqs: map<Pair, string>, align: Aligner): (r: Result<string, AssemblyError>)
    requires Ready(bounds, seqs) && AlignerContract(align)
    ensures r == Err(NoRegions) <==> bounds == []
    ensures r.Ok? && (forall b :: b in bounds ==> IsDna(seqs[b])) ==> IsDna(r.value)
  {
    var sorted := SortPairs(bounds);
    SortedMembers(bounds);
    if sorted == [] then Err(NoRegions)
    else Stitch(seqs[sorted[0]], sorted[0].1, sorted[1..], seqs, align)
  }

  /** Every region after the first starts before the end of its predecessor. */
  ghost predicate Overlapping(runningEnd: int, rest: seq<Pair>) {
    && (rest != [] ==> rest[0].0 < runningEnd)
    && forall i :: 1 <= i < |rest| ==> rest[i].0 < rest[i - 1].1
  }

  /** A gap between consecutive regions is fatal: the loop succeeds only when every region
      overlaps its predecessor, and when they all do, the only possible failures are an
      empty window and a missing anchor. */
  lemma {:induction false} StitchErrors(running: string, runningEnd: int, rest: seq<Pair>,
                                        seqs: map<Pair, string>, align: Aligner)
    requires GapFree(running) && Ready(rest, seqs) && AlignerContract(align)
    ensures Stitch(running, runningEnd, rest, seqs, align).Ok? ==> Overlapping(runningEnd, rest)
    ensures Overlapping(runningEnd, rest) && Stitch(running, runningEnd, rest, seqs, align).Err?
            ==> Stitch(running, runningEnd, rest, seqs, align).error.NoAlignment?
                || Stitch(running, runningEnd, rest, seqs, align).error.NoAnchor?
    decreases |rest|
  {
    if rest != [] {
      var step := StepRegion(running, runningEnd, rest[0], seqs[rest[0]], align);
      StepRegionErrors(running, runningEnd, rest[0], seqs[rest[0]], align);
      if step.Ok? {
        assert Ready(rest[1..], seqs);
        StitchErrors(step.value, rest[0].1, rest[1..], seqs, align);
        OverlappingTail(runningEnd, rest);
      }
    }
  }

  lemma OverlappingTail(runningEnd: int, rest: seq<Pair>)
    requires rest != []
    ensures Overlapping(runningEnd, rest) <==> rest[0].0 < runningEnd && Overlapping(rest[0].1, rest[1..])
  {
  }

  /** Every region after the first starts before the end of the one before it in `(start, end)` order. */
  ghost predicate Chained(sorted: seq<Pair>) {
    forall i :: 1 <= i < |sorted| ==> sorted[i].0 < sorted[i - 1].1
  }

  /** At contig level: consensus requires every region, in `(start, end)` order, to overlap
      the one before it; with that, the only failures left are an empty window and a
      missing anchor. */
  lemma ConsensusErrors(bounds: seq<Pair>, seqs: map<Pair, string>, align: Aligner)
    requires Ready(bounds, seqs) && AlignerContract(align) && bounds != []
    ensures Consensus(bounds, seqs, align).Ok? ==> Chained(SortPairs(bounds))
    ensures Chained(SortPairs(bounds)) && Consensus(bounds, seqs, align).Err?
            ==> Consensus(bounds, seqs, align).error.NoAlignment?
                || Consensus(bounds, seqs, align).error.NoAnchor?
  {
    var sorted := SortPairs(bounds);
    SortedMembers(bounds);
    assert Ready(sorted[1..], seqs);
    StitchErrors(seqs[sorted[0]], sorted[0].1, sorted[1..], seqs, align);
    ChainedTail(sorted);
  }

  lemma ChainedTail(sorted: seq<Pair>)
    requires sorted != []
    ensures Chained(sorted) <==> Overlapping(sorted[0].1, sorted[1..])
  {
  }

  /** The order in which the regions were collected does not matter: any permutation of the
      bounds gives the same consensus. */
  lemma ConsensusIgnoresCollectionOrder(b1: seq<Pair>, b2: seq<Pair>, seqs: map<Pair, string>, align: Aligner)
    requires Ready(b1, seqs) && Ready(b2, seqs) && AlignerContract(align)
    requires multiset(b1) == multiset(b2)
    ensures Consensus(b1, seqs, align) == Consensus(b2, seqs, align)
  {
    SortedPermutationUnique(SortPairs(b1), SortPairs(b2));
  }

  /** Overlap splice identity: when the window at the end of the running sequence and the
      window at the start of the next region are the same gap-free string, and the aligner
      aligns two equal strings column by column, the anchor lies after three characters and
      the corrected result is the running sequence without its window followed by the whole
      next region. Line 157 as written gives the same when the window is wider than three;
      for a window of exactly three it keeps only the next region after its first three
      characters. */
  lemma IdenticalWindowSplice(running: string, runningEnd: int, b: Pair, seqs: map<Pair, string>, align: Aligner)
    requires b in seqs && GapFree(running) && GapFree(seqs[b]) && AlignerContract(align)
    requires b.0 < runningEnd
    requires var w := Window(runningEnd - b.0);
             3 <= w <= |running| && w <= |seqs[b]| && running[|running| - w..] == seqs[b][..w]
    requires var x := seqs[b][..Window(runningEnd - b.0)]; align(x, x) == (x, x)
    ensures var w := Window(runningEnd - b.0);
            Stitch(running, runningEnd, [b], seqs, align) == Ok(running[..|running| - w] + seqs[b])
    ensures var w := Window(runningEnd - b.0);
            var x := seqs[b][..w];
            AnchorOf(x, x) == (3, 3)
            && SpliceAsWritten(running, seqs[b], w, 3, 3)
               == if w == 3 then seqs[b][3..] else running[..|running| - w] + seqs[b]
  {
    var next := seqs[b];
    var w := Window(runningEnd - b.0);
    var x := next[..w];
    assert Suffix(running, w) == x && Prefix(next, w) == x;
    assert GapFree(x) by {
      forall i | 0 <= i < |x| ensures x[i] != Gap { assert x[i] == next[i]; }
    }
    AnchorOfIdentical(x);
    SpliceAtThree(running, next, w);
    assert StepRegion(running, runningEnd, b, next, align) == Ok(running[..|running| - w] + next);
    assert [b][1..] == [];
  }

  lemma SpliceAtThree(running: string, next: string, w: nat)
    requires 3 <= w <= |running| && w <= |next| && running[|running| - w..] == next[..w]
    ensures Splice(running, next, w, 3, 3) == running[..|running| - w] + next
  {
  }

  /** A gap between two regions: bounds (0, 500) and (600, 1100) abort with no-overlap. */
  lemma GapScenario(seqs: map<Pair, string>, align: Aligner)
    requires (0, 500) in seqs && (600, 1100) in seqs
    requires GapFree(seqs[(0, 500)]) && GapFree(seqs[(600, 1100)]) && AlignerContract(align)
    ensures Consensus([(600, 1100), (0, 500)], seqs, align) == Err(NoOverlap(600, 500))
  {
  }

  /** The body of the splice loop for one region (lines 134-164 of the stitcher). */
  method SpliceNext(runningSequence: string, runningEnd: int, b: Pair, thisSequence: string, align: Aligner)
    returns (r: Result<string, AssemblyError>)
    requires GapFree(runningSequence) && GapFree(thisSequence) && AlignerContract(align)
    ensures r == StepRegion(runningSequence, runningEnd, b, thisSequence, align)
  {
    var thisStart, thisEnd := b.0, b.1;
    if thisStart < runningEnd {
      var overlapBases := Window(runningEnd - thisStart);
      var sequenceSuffix := Suffix(runningSequence, overlapBases);
      var sequencePrefix := Prefix(thisSequence, overlapBases);
      if sequenceSuffix == [] || sequencePrefix == [] {
        return Err(NoAlignment(thisStart, thisEnd));
      }
      var alignment := align(sequenceSuffix, sequencePrefix);
      var posA, posB := ConfidentPositions(alignment.0, alignment.1);
      if posA == -1 || posB == -1 {
        assert StepRegion(runningSequence, runningEnd, b, thisSequence, align) == Err(NoAnchor(thisStart, thisEnd));
        return Err(NoAnchor(thisStart, thisEnd));
      }
      StepBounds(runningSequence, thisSequence, overlapBases, sequenceSuffix, sequencePrefix, alignment, (posA, posB));
      r := Ok(Splice(runningSequence, thisSequence, overlapBases, posA, posB));
    } else {
      r := Err(NoOverlap(thisStart, runningEnd));
    }
  }

  /** The splice loop of `create_consensus_sequence`: sort, seed, then splice region by
      region, stopping at the first failure. */
  method Assemble(bounds: seq<Pair>, seqs: map<Pair, string>, align: Aligner) returns (r: Result<string, AssemblyError>)
    requires Ready(bounds, seqs) && AlignerContract(align)
    ensures r == Consensus(bounds, seqs, align)
  {
    var sequenceChunks := SortPairs(bounds);
    SortedMembers(bounds);
    if |sequenceChunks| == 0 {
      return Err(NoRegions);
    }
    var runningEnd := sequenceChunks[0].1;
    var runningSequence := seqs[sequenceChunks[0]];
    ghost var goal := Stitch(runningSequence, runningEnd, sequenceChunks[1..], seqs, align);
    var i := 1;
    while i < |sequenceChunks|
      invariant 1 <= i <= |sequenceChunks|
      invariant GapFree(runningSequence) && Ready(sequenceChunks[i..], seqs)
      invariant Stitch(runningSequence, runningEnd, sequenceChunks[i..], seqs, align) == goal
    {
      assert sequenceChunks[i] in sequenceChunks[i..];
      var step := SpliceNext(runningSequence, runningEnd, sequenceChunks[i], seqs[sequenceChunks[i]], align);
      assert sequenceChunks[i..][1..] == sequenceChunks[i + 1..];
      if step.Err? {
        return Err(step.error);
      }
      runningSequence := step.value;
      runningEnd := sequenceChunks[i].1;
      i := i + 1;
    }
    assert sequenceChunks[i..] == [];
    r := Ok(runningSequence);
  }
}
