/**
 * The batch side of `create_consensus_sequence` and the per-group work of
 * `small_chunk_stitch`: the region keys are partitioned, every group is
 * decoded (a failing region fails its whole group), the results of the
 * groups that succeeded are collected into the bounds list and the
 * bounds-to-sequence map, and the consensus is assembled from them.
 */
module Orchestrator {
  import opened Wrappers
  import opened Sorting
  import opened Partition
  import opened RegionDecoder
  import opened Anchor
  import opened Assembler

  /** What the store holds for one region key: its bounds and its sub-chunks, in the order
      they are visited. */
  datatype RegionInput = RegionInput(start: int, end: int, subchunks: seq<SubChunk>)

  /** A `(contig, contig_start, contig_end, sequence)` tuple. */
  datatype Region = Region(contig: string, start: int, end: int, sequence: string)

  function BoundsOf(r: Region): Pair {
    (r.start, r.end)
  }

  /** A region decoder: `RegionSequence`, or any other function of the sub-chunks. */
  type Decoder = seq<SubChunk> -> Result<string, DecodeError>

  /** Decoding one more region extends a group that decoded so far, or fails it. */
  lemma DecodeAllSnoc(decode: Decoder, contig: string, group: seq<RegionInput>, i: nat, done: seq<Region>)
    requires i < |group| && DecodeAll(decode, contig, group[..i]) == Ok(done)
    ensures decode(group[i].subchunks).Err? ==>
      DecodeAll(decode, contig, group[..i + 1]) == Err(decode(group[i].subchunks).error)
    ensures decode(group[i].subchunks).Ok? ==>
      DecodeAll(decode, contig, group[..i + 1]) ==
        Ok(done + [Region(contig, group[i].start, group[i].end, decode(group[i].subchunks).value)])
  {
    assert group[..i + 1][..i] == group[..i];
  }

  /** `small_chunk_stitch` for one group, as a value: the regions decoded in order by
      `decode`, or the error of the first region that fails to decode. The properties
      below hold for every decoder; the model uses `RegionSequence`. */
  function DecodeAll(decode: Decoder, contig: string, group: seq<RegionInput>): (r: Result<seq<Region>, DecodeError>)
    ensures r.Ok? ==> |r.value| == |group|
  {
    if group == [] then Ok([])
    else
      var last := group[|group| - 1];
      match DecodeAll(decode, contig, group[..|group| - 1])
      case Err(e) => Err(e)
      case Ok(done) =>
        match decode(last.subchunks)
        case Err(e) => Err(e)
        case Ok(sequence) => Ok(done + [Region(contig, last.start, last.end, sequence)])
  }

  /** A group decodes exactly when every one of its regions does, and then it yields one
      region tuple per input, in order, each carrying its decoded sequence. */
  lemma {:induction false} DecodeAllOk(decode: Decoder, contig: string, group: seq<RegionInput>)
    ensures DecodeAll(decode, contig, group).Ok? <==> forall i :: 0 <= i < |group| ==> decode(group[i].subchunks).Ok?
    ensures DecodeAll(decode, contig, group).Ok? ==>
      var rs := DecodeAll(decode, contig, group).value;
      |rs| == |group| &&
      forall i :: 0 <= i < |group| ==>
        rs[i] == Region(contig, group[i].start, group[i].end, decode(group[i].subchunks).value)
  {
    if group != [] {
      var pre := group[..|group| - 1];
      DecodeAllOk(decode, contig, pre);
      assert forall i :: 0 <= i < |pre| ==> pre[i] == group[i];
    }
  }

  /** The group fails with the error of its first failing region. */
  lemma {:induction false} DecodeAllFirstError(decode: Decoder, contig: string, group: seq<RegionInput>, i: nat)
    requires i < |group| && decode(group[i].subchunks).Err?
    requires forall j :: 0 <= j < i ==> decode(group[j].subchunks).Ok?
    ensures DecodeAll(decode, contig, group) == Err(decode(group[i].subchunks).error)
  {
    var pre := group[..|group| - 1];
    assert forall j :: 0 <= j < |pre| ==> pre[j] == group[j];
    if i < |pre| {
      DecodeAllFirstError(decode, contig, pre, i);
    } else {
      DecodeAllOk(decode, contig, pre);
    }
  }

  /** Once a prefix of the group fails, the group fails with the same error. */
  lemma {:induction false} DecodeAllPrefixError(decode: Decoder, contig: string, group: seq<RegionInput>, k: nat)
    requires k <= |group| && DecodeAll(decode, contig, group[..k]).Err?
    ensures DecodeAll(decode, contig, group) == DecodeAll(decode, contig, group[..k])
    decreases |group| - k
  {
    if k == |group| {
      assert group[..k] == group;
    } else {
      var pre := group[..|group| - 1];
      assert pre[..k] == group[..k];
      DecodeAllPrefixError(decode, contig, pre, k);
    }
  }

  /** `small_chunk_stitch` for one group: decode every region in order; the first region that
      fails to decode raises, and the whole group fails with it. */
  method DecodeGroup(contig: string, group: seq<RegionInput>) returns (r: Result<seq<Region>, DecodeError>)
    ensures r == DecodeAll(RegionSequence, contig, group)
  {
    var nameSequenceTuples: seq<Region> := [];
    var i := 0;
    while i < |group|
      invariant 0 <= i <= |group|
      invariant DecodeAll(RegionSequence, contig, group[..i]) == Ok(nameSequenceTuples)
    {
      var sequence := DecodeRegion(group[i].subchunks);
      DecodeAllSnoc(RegionSequence, contig, group, i, nameSequenceTuples);
      if sequence.Err? {
        DecodeAllPrefixError(RegionSequence, contig, group, i + 1);
        return Err(sequence.error);
      }
      nameSequenceTuples := nameSequenceTuples + [Region(contig, group[i].start, group[i].end, sequence.value)];
      i := i + 1;
    }
    assert group[..i] == group;
    r := Ok(nameSequenceTuples);
  }

  /** The regions of the groups that succeeded, in completion order. */
  function Succeeded(outcomes: seq<Option<seq<Region>>>): seq<Region> {
    if outcomes == [] then []
    else
      var last := outcomes[|outcomes| - 1];
      Succeeded(outcomes[..|outcomes| - 1]) + if last.Some? then last.value else []
  }

  /** `sequence_chunks`: the bounds of the collected regions, duplicates included. */
  function BoundsList(rs: seq<Region>): (bs: seq<Pair>)
    ensures |bs| == |rs| && forall i :: 0 <= i < |rs| ==> bs[i] == BoundsOf(rs[i])
  {
    if rs == [] then [] else BoundsList(rs[..|rs| - 1]) + [BoundsOf(rs[|rs| - 1])]
  }

  /** `chunk_name_to_sequence`: each region's sequence stored under its bounds; a later
      region with the same bounds overwrites an earlier one. */
  function Store(rs: seq<Region>): map<Pair, string> {
    if rs == [] then map[]
    else Store(rs[..|rs| - 1])[BoundsOf(rs[|rs| - 1]) := rs[|rs| - 1].sequence]
  }

  /** Failure isolation: a region is collected exactly when some group that succeeded
      produced it; a failed group only loses its own regions. */
  lemma {:induction false} SucceededMembers(outcomes: seq<Option<seq<Region>>>, r: Region)
    ensures r in Succeeded(outcomes) <==>
      exists j :: 0 <= j < |outcomes| && outcomes[j].Some? && r in outcomes[j].value
  {
    if outcomes != [] {
      var pre := outcomes[..|outcomes| - 1];
      SucceededMembers(pre, r);
      assert forall j :: 0 <= j < |pre| ==> pre[j] == outcomes[j];
    }
  }

  /** Every region of every group that succeeded is collected, as often as that group
      returned it. */
  lemma {:induction false} SucceededKeepsGroups(outcomes: seq<Option<seq<Region>>>)
    ensures forall j :: 0 <= j < |outcomes| && outcomes[j].Some? ==>
      multiset(outcomes[j].value) <= multiset(Succeeded(outcomes))
  {
    if outcomes != [] {
      var pre := outcomes[..|outcomes| - 1];
      SucceededKeepsGroups(pre);
      assert forall j :: 0 <= j < |pre| ==> pre[j] == outcomes[j];
    }
  }

  /** The map has at most one entry per collected region: duplicate bounds collapse. */
  lemma {:induction false} StoreSize(rs: seq<Region>)
    ensures |Store(rs)| <= |rs|
  {
    if rs != [] {
      StoreSize(rs[..|rs| - 1]);
    }
  }

  /** The map has an entry for exactly the bounds in the list. */
  lemma {:induction false} StoreKeys(rs: seq<Region>)
    ensures forall b :: b in Store(rs) <==> b in BoundsList(rs)
  {
    if rs != [] {
      StoreKeys(rs[..|rs| - 1]);
    }
  }

  /** Duplicate bounds collapse: the map holds, for a bounds pair, the sequence of the
      last collected region with those bounds. */
  lemma {:induction false} StoreKeepsLast(rs: seq<Region>, j: nat)
    requires j < |rs|
    requires forall i :: j < i < |rs| ==> BoundsOf(rs[i]) != BoundsOf(rs[j])
    ensures BoundsOf(rs[j]) in Store(rs) && Store(rs)[BoundsOf(rs[j])] == rs[j].sequence
  {
    if j < |rs| - 1 {
      var pre := rs[..|rs| - 1];
      assert pre[j] == rs[j];
      StoreKeepsLast(pre, j);
    }
  }

  /** Every value in the map is the sequence of some collected region. */
  lemma {:induction false} StoreValues(rs: seq<Region>, b: Pair)
    requires b in Store(rs)
    ensures exists i :: 0 <= i < |rs| && Store(rs)[b] == rs[i].sequence
  {
    var pre := rs[..|rs| - 1];
    if b != BoundsOf(rs[|rs| - 1]) {
      StoreValues(pre, b);
      var i :| 0 <= i < |pre| && Store(pre)[b] == pre[i].sequence;
      assert rs[i] == pre[i];
    }
  }

  /** Adding the regions of one successful group to the map and the list (line 117-119). */
  method StoreGroup(seqs: map<Pair, string>, bounds: seq<Pair>, ghost done: seq<Region>, group: seq<Region>)
    returns (seqs': map<Pair, string>, bounds': seq<Pair>)
    requires seqs == Store(done) && bounds == BoundsList(done)
    ensures seqs' == Store(done + group) && bounds' == BoundsList(done + group)
  {
    seqs', bounds' := seqs, bounds;
    var i := 0;
    assert done + group[..0] == done;
    while i < |group|
      invariant 0 <= i <= |group|
      invariant seqs' == Store(done + group[..i]) && bounds' == BoundsList(done + group[..i])
    {
      var region := group[i];
      ghost var next := done + group[..i + 1];
      assert next[..|next| - 1] == done + group[..i] && next[|next| - 1] == region;
      seqs' := seqs'[(region.start, region.end) := region.sequence];
      bounds' := bounds' + [(region.start, region.end)];
      i := i + 1;
    }
    assert group[..i] == group;
  }

  /** The `as_completed` loop: outcomes arrive in completion order; a failed group (None) is
      reported and skipped, the regions of the others are stored. */
  method Collect(outcomes: seq<Option<seq<Region>>>) returns (seqs: map<Pair, string>, bounds: seq<Pair>)
    ensures seqs == Store(Succeeded(outcomes)) && bounds == BoundsList(Succeeded(outcomes))
  {
    seqs, bounds := map[], [];
    var k := 0;
    while k < |outcomes|
      invariant 0 <= k <= |outcomes|
      invariant seqs == Store(Succeeded(outcomes[..k])) && bounds == BoundsList(Succeeded(outcomes[..k]))
    {
      assert outcomes[..k + 1][..k] == outcomes[..k] && outcomes[..k + 1][k] == outcomes[k];
      if outcomes[k].Some? {
        assert Succeeded(outcomes[..k + 1]) == Succeeded(outcomes[..k]) + outcomes[k].value;
        seqs, bounds := StoreGroup(seqs, bounds, Succeeded(outcomes[..k]), outcomes[k].value);
      } else {
        assert Succeeded(outcomes[..k + 1]) == Succeeded(outcomes[..k]) + [];
        assert Succeeded(outcomes[..k + 1]) == Succeeded(outcomes[..k]);
      }
      k := k + 1;
    }
    assert outcomes[..k] == outcomes;
  }

  /** `completion` lists every group index exactly once: the order in which the workers finish. */
  predicate IsCompletionOrder(completion: seq<nat>, groups: nat) {
    |completion| == groups && Distinct(completion) && forall k :: 0 <= k < |completion| ==> completion[k] < groups
  }

  /** Every collected region was decoded, so its sequence holds only A, C, G and T. */
  ghost predicate AllDna(outcomes: seq<Option<seq<Region>>>) {
    forall k, r :: 0 <= k < |outcomes| && outcomes[k].Some? && r in outcomes[k].value ==> IsDna(r.sequence)
  }

  /** What `as_completed` yields for one group: its regions, or None when decoding raised. */
  function Outcome(contig: string, group: seq<RegionInput>): (o: Option<seq<Region>>)
    ensures o.Some? <==> forall i :: 0 <= i < |group| ==> RegionSequence(group[i].subchunks).Ok?
    ensures o.Some? ==> |o.value| == |group|
  {
    DecodeAllOk(RegionSequence, contig, group);
    match DecodeAll(RegionSequence, contig, group)
    case Ok(rs) => Some(rs)
    case Err(_) => None
  }

  /** The outcomes of the groups, in completion order. */
  function Outcomes(contig: string, groups: seq<seq<RegionInput>>, completion: seq<nat>)
    : (os: seq<Option<seq<Region>>>)
    requires forall k :: 0 <= k < |completion| ==> completion[k] < |groups|
    ensures |os| == |completion|
  {
    if completion == [] then []
    else
      Outcomes(contig, groups, completion[..|completion| - 1])
        + [Outcome(contig, groups[completion[|completion| - 1]])]
  }

  /** Every region a worker hands back holds only A, C, G and T. */
  lemma {:induction false} OutcomesAreDna(contig: string, groups: seq<seq<RegionInput>>, completion: seq<nat>)
    requires forall k :: 0 <= k < |completion| ==> completion[k] < |groups|
    ensures AllDna(Outcomes(contig, groups, completion))
  {
    if completion != [] {
      var pre := completion[..|completion| - 1];
      OutcomesAreDna(contig, groups, pre);
      var group := groups[completion[|completion| - 1]];
      if DecodeAll(RegionSequence, contig, group).Ok? {
        RegionSequenceIsDna();
        DecodedGroupIsDna(RegionSequence, contig, group);
      }
    }
  }

  /** `create_consensus_sequence` for one contig, as a value: partition the keys, decode the
      groups, collect the outcomes in completion order, assemble. With no region keys it
      fails at `sequence_chunks[0]`; a consensus that is produced holds only A, C, G and T. */
  function ContigConsensus(contig: string, inputs: seq<RegionInput>, threads: nat, completion: seq<nat>,
                           align: Aligner): (r: Result<string, AssemblyError>)
    requires threads > 0 && AlignerContract(align)
    requires IsCompletionOrder(completion, CeilDiv(|inputs|, GroupSize(|inputs|, threads)))
    ensures inputs == [] ==> r == Err(NoRegions)
    ensures r.Ok? ==> IsDna(r.value)
  {
    var groups := Slices(inputs, GroupSize(|inputs|, threads));
    var outcomes := Outcomes(contig, groups, completion);
    OutcomesAreDna(contig, groups, completion);
    CollectedReady(outcomes);
    var rs := Succeeded(outcomes);
    Consensus(BoundsList(rs), Store(rs), align)
  }

  /** The workers, run one group at a time in completion order (lines 113-116). */
  method RunGroups(contig: string, groups: seq<seq<RegionInput>>, completion: seq<nat>)
    returns (outcomes: seq<Option<seq<Region>>>)
    requires forall k :: 0 <= k < |completion| ==> completion[k] < |groups|
    ensures outcomes == Outcomes(contig, groups, completion)
  {
    outcomes := [];
    var k := 0;
    while k < |completion|
      invariant 0 <= k <= |completion|
      invariant outcomes == Outcomes(contig, groups, completion[..k])
    {
      var fut := DecodeGroup(contig, groups[completion[k]]);
      assert completion[..k + 1][..k] == completion[..k];
      if fut.Ok? {
        outcomes := outcomes + [Some(fut.value)];
      } else {
        outcomes := outcomes + [None];
      }
      k := k + 1;
    }
    assert completion[..k] == completion;
  }

  /** `create_consensus_sequence` for one contig, with the workers run one group at a time in
      completion order. */
  method CreateConsensus(contig: string, inputs: seq<RegionInput>, threads: nat, completion: seq<nat>, align: Aligner)
    returns (r: Result<string, AssemblyError>)
    requires threads > 0 && AlignerContract(align)
    requires IsCompletionOrder(completion, CeilDiv(|inputs|, GroupSize(|inputs|, threads)))
    ensures r == ContigConsensus(contig, inputs, threads, completion, align)
  {
    var fileChunks := PartitionKeys(inputs, threads);
    var outcomes := RunGroups(contig, fileChunks, completion);
    var seqs, bounds := Collect(outcomes);
    OutcomesAreDna(contig, fileChunks, completion);
    CollectedReady(outcomes);
    r := Assemble(bounds, seqs, align);
  }

  /** When the decoder only ever yields A, C, G and T, so does every region of a group that
      decodes. */
  lemma DecodedGroupIsDna(decode: Decoder, contig: string, group: seq<RegionInput>)
    requires forall cs :: decode(cs).Ok? ==> IsDna(decode(cs).value)
    requires DecodeAll(decode, contig, group).Ok?
    ensures forall r :: r in DecodeAll(decode, contig, group).value ==> IsDna(r.sequence)
  {
    DecodeAllOk(decode, contig, group);
  }

  /** What the collection hands to the assembler is ready for it: every listed bounds pair
      has a DNA sequence in the map. */
  lemma CollectedReady(outcomes: seq<Option<seq<Region>>>)
    requires AllDna(outcomes)
    ensures var rs := Succeeded(outcomes);
            Ready(BoundsList(rs), Store(rs)) && forall b :: b in BoundsList(rs) ==> IsDna(Store(rs)[b])
  {
    var rs := Succeeded(outcomes);
    StoreKeys(rs);
    forall b | b in BoundsList(rs) ensures IsDna(Store(rs)[b]) && GapFree(Store(rs)[b]) {
      StoreValues(rs, b);
      var i :| 0 <= i < |rs| && Store(rs)[b] == rs[i].sequence;
      SucceededMembers(outcomes, rs[i]);
    }
  }
}
