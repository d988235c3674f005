/**
 * Region decoding: the non-I/O body of `small_chunk_stitch`. The sub-chunk
 * arrays of one region are merged into a map from `(pos, indx)` to the first
 * base label and run length reported for it; the keys are sorted and every
 * key contributes its letter repeated run-length times.
 */
module RegionDecoder {
  import opened Wrappers
  import opened Sorting

  /** One sub-chunk as read from the store: positions as `(pos, indx)` pairs,
      base labels and run-length labels. */
  datatype SubChunk = SubChunk(positions: seq<Pair>, bases: seq<int>, rles: seq<int>)

  /** One `(position, base_pred, rle_pred)` triple produced by `zip`. */
  datatype Entry = Entry(key: Pair, base: int, rle: int)

  /** The base label and run length kept for a key (the two dictionaries of
      the source always share their keys, so they are kept as one map). */
  datatype Label = Label(base: int, rle: int)

  datatype DecodeError =
    | TooFewPositions   // `operator.itemgetter(*pos_list)` with fewer than two keys
    | UnknownLabel(base: int)  // `label_decoder[base]` raises KeyError

  function Min3(a: nat, b: nat, c: nat): nat {
    if a <= b && a <= c then a else if b <= c then b else c
  }

  /** `zip(positions, base_predictions, rle_predictions)`: stops at the shortest array. */
  function ZipEntries(c: SubChunk): (es: seq<Entry>)
    ensures |es| == Min3(|c.positions|, |c.bases|, |c.rles|)
    ensures forall i :: 0 <= i < |es| ==> es[i] == Entry(c.positions[i], c.bases[i], c.rles[i])
  {
    var n := Min3(|c.positions|, |c.bases|, |c.rles|);
    seq(n, i requires 0 <= i < n => Entry(c.positions[i], c.bases[i], c.rles[i]))
  }

  /** All entries of the sub-chunks, in the order the sub-chunks are visited. */
  function Entries(cs: seq<SubChunk>): seq<Entry> {
    if cs == [] then []
    else Entries(cs[..|cs| - 1]) + ZipEntries(cs[|cs| - 1])
  }

  /** An entry is used only when both its position and its index are non-negative. */
  predicate ValidKey(k: Pair) {
    k.0 >= 0 && k.1 >= 0
  }

  /** The map built by the loop: an entry is stored when its key is valid and not yet present. */
  function FirstSeen(es: seq<Entry>): map<Pair, Label> {
    if es == [] then map[]
    else
      var m := FirstSeen(es[..|es| - 1]);
      var e := es[|es| - 1];
      if ValidKey(e.key) && e.key !in m then m[e.key := Label(e.base, e.rle)] else m
  }

  /** The keys of `all_positions` in the order they were first added: one per stored key. */
  function KeysInOrder(es: seq<Entry>): (keys: seq<Pair>)
    ensures |keys| == |FirstSeen(es)|
  {
    if es == [] then []
    else
      var e := es[|es| - 1];
      if ValidKey(e.key) && e.key !in FirstSeen(es[..|es| - 1])
      then KeysInOrder(es[..|es| - 1]) + [e.key]
      else KeysInOrder(es[..|es| - 1])
  }

  /** `label_decoder`: 1..4 are A, C, G, T; 0 is the empty string; anything else is a KeyError. */
  function Letter(base: int): (r: Option<string>)
    ensures r.Some? <==> KnownLabel(base)
    ensures r.Some? ==> IsDna(r.value) && |r.value| == (if base == 0 then 0 else 1)
  {
    if base == 0 then Some("")
    else if base == 1 then Some("A")
    else if base == 2 then Some("C")
    else if base == 3 then Some("G")
    else if base == 4 then Some("T")
    else None
  }

  /** Python's `s * n` for a string: `n` copies, none when `n <= 0`. */
  function Repeat(s: string, n: int): (r: string)
    ensures |r| == if n > 0 then |s| * n else 0
    decreases if n < 0 then 0 else n
  {
    if n <= 0 then [] else s + Repeat(s, n - 1)
  }

  predicate IsBase(c: char) {
    c == 'A' || c == 'C' || c == 'G' || c == 'T'
  }

  /** Only the letters A, C, G and T. */
  predicate IsDna(s: string) {
    forall i :: 0 <= i < |s| ==> IsBase(s[i])
  }

  /** A known label; it emits a letter when it is not 0. */
  predicate KnownLabel(base: int) {
    0 <= base <= 4
  }

  /** Number of characters a key contributes. */
  function Emitted(l: Label): nat {
    if 1 <= l.base <= 4 && l.rle > 0 then l.rle else 0
  }

  function EmittedLength(keys: seq<Pair>, m: map<Pair, Label>): nat
    requires forall k :: k in keys ==> k in m
  {
    if keys == [] then 0 else Emitted(m[keys[0]]) + EmittedLength(keys[1..], m)
  }

  /** The `join` comprehension: the letters of the keys, in the given key order, each repeated
      run-length times. It succeeds exactly when every label is known, the result holds only
      A, C, G and T, and its length is the sum of the run lengths of the non-zero labels. */
  function Render(keys: seq<Pair>, m: map<Pair, Label>): (r: Result<string, DecodeError>)
    requires forall k :: k in keys ==> k in m
    ensures r.Ok? <==> forall k :: k in keys ==> KnownLabel(m[k].base)
    ensures r.Ok? ==> IsDna(r.value)
    ensures r.Ok? ==> |r.value| == EmittedLength(keys, m)
    ensures r.Err? ==> r.error.UnknownLabel?
  {
    if keys == [] then Ok("")
    else
      var l := m[keys[0]];
      match Letter(l.base)
      case None => Err(UnknownLabel(l.base))
      case Some(letter) =>
        match Render(keys[1..], m)
        case Err(e) => Err(e)
        case Ok(rest) =>
          RepeatLetter(letter, l.rle);
          assert forall k :: k in keys ==> k == keys[0] || k in keys[1..];
          Ok(Repeat(letter, l.rle) + rest)
  }

  lemma {:induction false} RepeatLetter(letter: string, n: int)
    requires letter == "" || (|letter| == 1 && IsBase(letter[0]))
    ensures |Repeat(letter, n)| == if n > 0 then |letter| * n else 0
    ensures forall i :: 0 <= i < |Repeat(letter, n)| ==> Repeat(letter, n)[i] == letter[0]
    decreases if n < 0 then 0 else n
  {
    if n > 0 {
      RepeatLetter(letter, n - 1);
    }
  }

  /** The decoded sequence of a region from its entries, as the source computes it: fewer than
      two stored keys is the `itemgetter` error, and only then is that the error. */
  function DecodeEntries(es: seq<Entry>): (r: Result<string, DecodeError>)
    ensures r == Err(TooFewPositions) <==> |FirstSeen(es)| < 2
  {
    var keys := SortedKeys(es);
    if |keys| < 2 then Err(TooFewPositions)
    else Render(keys, FirstSeen(es))
  }

  /** `pos_list`: the stored keys sorted by `(pos, indx)`; every one of them has a label. */
  function SortedKeys(es: seq<Entry>): (keys: seq<Pair>)
    ensures forall k :: k in keys ==> k in FirstSeen(es)
    ensures |keys| == |FirstSeen(es)|
  {
    KeysInOrderMatchFirstSeen(es);
    SortedMembers(KeysInOrder(es));
    SortPairs(KeysInOrder(es))
  }

  /** The decoded sequence of a region from its sub-chunks, visited in the given order: it
      fails for lack of positions exactly when fewer than two valid keys are reported. */
  function RegionSequence(subchunks: seq<SubChunk>): (r: Result<string, DecodeError>)
    ensures r == Err(TooFewPositions) <==> |FirstSeen(Entries(subchunks))| < 2
  {
    DecodeEntries(Entries(subchunks))
  }

  /** A region that decodes holds only A, C, G and T. */
  lemma RegionSequenceIsDna()
    ensures forall cs :: RegionSequence(cs).Ok? ==> IsDna(RegionSequence(cs).value)
  {
  }

  /** The ordered key list records each stored key once, and nothing else. */
  lemma {:induction false} KeysInOrderMatchFirstSeen(es: seq<Entry>)
    ensures Distinct(KeysInOrder(es))
    ensures forall k :: k in KeysInOrder(es) <==> k in FirstSeen(es)
  {
    if es != [] {
      KeysInOrderMatchFirstSeen(es[..|es| - 1]);
    }
  }

  /** Negative positions or indices are padding: a key is stored exactly when it is valid and
      some entry carries it. */
  lemma {:induction false} FirstSeenKeys(es: seq<Entry>, k: Pair)
    ensures k in FirstSeen(es) <==> ValidKey(k) && exists j :: 0 <= j < |es| && es[j].key == k
  {
    if es != [] {
      var pre := es[..|es| - 1];
      FirstSeenKeys(pre, k);
      assert forall j :: 0 <= j < |pre| ==> pre[j] == es[j];
    }
  }

  /** First-seen wins: the label stored for a key is the one of the earliest entry carrying it;
      later entries with the same key are ignored. */
  lemma {:induction false} FirstSeenValue(es: seq<Entry>, j: nat)
    requires j < |es| && ValidKey(es[j].key)
    requires forall i :: 0 <= i < j ==> es[i].key != es[j].key
    ensures es[j].key in FirstSeen(es)
    ensures FirstSeen(es)[es[j].key] == Label(es[j].base, es[j].rle)
  {
    var pre := es[..|es| - 1];
    if j == |es| - 1 {
      FirstSeenKeys(pre, es[j].key);
      assert forall i :: 0 <= i < |pre| ==> pre[i] == es[i];
    } else {
      assert pre[j] == es[j];
      FirstSeenValue(pre, j);
    }
  }

  /** The entries whose key is valid, in order. */
  function ValidOnly(es: seq<Entry>): seq<Entry> {
    if es == [] then []
    else
      var e := es[|es| - 1];
      ValidOnly(es[..|es| - 1]) + if ValidKey(e.key) then [e] else []
  }

  /** Dropping the entries with a negative position or index, whatever their base and
      run-length labels, changes neither the stored map nor the key order. */
  lemma {:induction false} InvalidEntriesIgnored(es: seq<Entry>)
    ensures FirstSeen(ValidOnly(es)) == FirstSeen(es)
    ensures KeysInOrder(ValidOnly(es)) == KeysInOrder(es)
  {
    if es != [] {
      var pre := es[..|es| - 1];
      var e := es[|es| - 1];
      InvalidEntriesIgnored(pre);
      if ValidKey(e.key) {
        var v := ValidOnly(pre) + [e];
        assert ValidOnly(es) == v;
        assert v[..|v| - 1] == ValidOnly(pre);
      } else {
        assert ValidOnly(es) == ValidOnly(pre);
        assert FirstSeen(es) == FirstSeen(pre);
        assert KeysInOrder(es) == KeysInOrder(pre);
      }
    }
  }

  /** Hence the decoded sequence never depends on an entry with a negative key. */
  lemma DecodeIgnoresInvalidEntries(es: seq<Entry>)
    ensures DecodeEntries(ValidOnly(es)) == DecodeEntries(es)
  {
    InvalidEntriesIgnored(es);
  }

  /** The decoded sequence is the rendering of the stored keys in strictly ascending
      `(pos, indx)` order; any listing of the stored keys sorts to that same order. */
  lemma DecodeSpec(es: seq<Entry>, listing: seq<Pair>)
    requires Distinct(listing)
    requires forall k :: k in listing <==> k in FirstSeen(es)
    ensures StrictlySorted(SortPairs(listing))
    ensures forall k :: k in SortPairs(listing) <==> k in FirstSeen(es)
    ensures SortPairs(listing) == SortedKeys(es)
    ensures |FirstSeen(es)| < 2 ==> DecodeEntries(es) == Err(TooFewPositions)
    ensures |FirstSeen(es)| >= 2 ==> DecodeEntries(es) == Render(SortPairs(listing), FirstSeen(es))
  {
    KeysInOrderMatchFirstSeen(es);
    SortDistinct(listing);
    var s := KeysInOrder(es);
    assert multiset(listing) == multiset(s) by {
      DistinctSetCard(listing, s, FirstSeen(es).Keys);
    }
    SortedPermutationUnique(SortPairs(listing), SortPairs(s));
    assert |SortPairs(s)| == |s| by { assert |multiset(SortPairs(s))| == |multiset(s)|; }
    assert |s| == |FirstSeen(es)| by { DistinctSetCard(s, s, FirstSeen(es).Keys); }
  }

  /** Two lists without repetitions holding the elements of one set are permutations
      of each other, with the set's size as length. */
  lemma DistinctSetCard(a: seq<Pair>, b: seq<Pair>, keys: set<Pair>)
    requires Distinct(a) && Distinct(b)
    requires forall k :: k in a <==> k in keys
    requires forall k :: k in b <==> k in keys
    ensures multiset(a) == multiset(b)
    ensures |a| == |keys|
  {
    forall k ensures multiset(a)[k] == multiset(b)[k] {
      DistinctMultiplicity(a, k);
      DistinctMultiplicity(b, k);
      if k in keys {
        assert k in multiset(a) && k in multiset(b);
      } else {
        assert k !in multiset(a) && k !in multiset(b);
      }
    }
    DistinctCard(a, keys);
  }

  lemma {:induction false} DistinctCard(a: seq<Pair>, keys: set<Pair>)
    requires Distinct(a)
    requires forall k :: k in a <==> k in keys
    ensures |a| == |keys|
  {
    if a != [] {
      var rest := a[1..];
      assert forall k :: k in rest <==> k in keys - {a[0]};
      DistinctCard(rest, keys - {a[0]});
    } else {
      assert keys == {};
    }
  }

  /** One step of the scan: the map and the key order after one more entry. */
  lemma StepEntry(es: seq<Entry>, e: Entry)
    ensures FirstSeen(es + [e]) ==
      if ValidKey(e.key) && e.key !in FirstSeen(es) then FirstSeen(es)[e.key := Label(e.base, e.rle)]
      else FirstSeen(es)
    ensures KeysInOrder(es + [e]) ==
      if ValidKey(e.key) && e.key !in FirstSeen(es) then KeysInOrder(es) + [e.key]
      else KeysInOrder(es)
  {
  }

  lemma EntriesStep(cs: seq<SubChunk>, c: nat)
    requires c < |cs|
    ensures Entries(cs[..c + 1]) == Entries(cs[..c]) + ZipEntries(cs[c])
  {
    assert cs[..c + 1][..c] == cs[..c];
  }

  /** The inner loop of the scan: the zipped entries of one sub-chunk are folded into the map
      and the key list. */
  method ScanEntries(labels: map<Pair, Label>, positions: seq<Pair>, ghost done: seq<Entry>, zipped: seq<Entry>)
    returns (labels': map<Pair, Label>, positions': seq<Pair>)
    requires labels == FirstSeen(done) && positions == KeysInOrder(done)
    ensures labels' == FirstSeen(done + zipped) && positions' == KeysInOrder(done + zipped)
  {
    labels', positions' := labels, positions;
    var i := 0;
    assert done + zipped[..0] == done;
    while i < |zipped|
      invariant 0 <= i <= |zipped|
      invariant labels' == FirstSeen(done + zipped[..i])
      invariant positions' == KeysInOrder(done + zipped[..i])
    {
      var e := zipped[i];
      assert done + zipped[..i + 1] == (done + zipped[..i]) + [e];
      StepEntry(done + zipped[..i], e);
      if ValidKey(e.key) && e.key !in labels' {
        labels' := labels'[e.key := Label(e.base, e.rle)];
        positions' := positions' + [e.key];
      }
      i := i + 1;
    }
    assert zipped[..i] == zipped;
  }

  /** `small_chunk_stitch` for one region key, without the store reads: the sub-chunks
      are scanned in order, the first valid report of every `(pos, indx)` is kept, the
      keys are sorted and rendered. */
  method DecodeRegion(subchunks: seq<SubChunk>) returns (r: Result<string, DecodeError>)
    ensures r == RegionSequence(subchunks)
  {
    var labels: map<Pair, Label> := map[];
    var positions: seq<Pair> := [];
    var c := 0;
    while c < |subchunks|
      invariant 0 <= c <= |subchunks|
      invariant labels == FirstSeen(Entries(subchunks[..c]))
      invariant positions == KeysInOrder(Entries(subchunks[..c]))
    {
      EntriesStep(subchunks, c);
      labels, positions := ScanEntries(labels, positions, Entries(subchunks[..c]), ZipEntries(subchunks[c]));
      c := c + 1;
    }
    assert subchunks[..c] == subchunks;
    var posList := SortPairs(positions);
    assert posList == SortedKeys(Entries(subchunks));
    if |posList| < 2 {
      r := Err(TooFewPositions);
    } else {
      r := Render(posList, labels);
    }
  }
}
