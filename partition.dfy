/**
 * Static batch partitioning of the region-chunk keys (`chunks` and its call
 * site in `create_consensus_sequence`): the ordered key list is cut into
 * contiguous slices, one per worker submission.
 */
module Partition {

  /** Concatenation of the slices, in order. */
  function Flatten<T>(groups: seq<seq<T>>): seq<T> {
    if groups == [] then [] else groups[0] + Flatten(groups[1..])
  }

  /** ceil(n / size): the number of slices of at most `size` elements needed for `n` elements. */
  function CeilDiv(n: nat, size: nat): nat
    requires size > 0
    decreases n
  {
    if n == 0 then 0 else 1 + CeilDiv(if n <= size then 0 else n - size, size)
  }

  /** Multiplying by a natural number keeps the order. */
  lemma MulMonotone(a: nat, b: nat, size: nat)
    requires a <= b
    ensures a * size <= b * size
  {
    var d: nat := b - a;
    assert b * size == a * size + d * size;
  }

  /** The quotient is the unique `c` with `c * size <= m < (c + 1) * size`. */
  lemma DivUnique(m: nat, size: nat, c: nat)
    requires size > 0 && c * size <= m < c * size + size
    ensures m / size == c
  {
    var q := m / size;
    assert m == q * size + m % size;
    if q < c {
      MulMonotone(q + 1, c, size);
    } else if q > c {
      MulMonotone(c + 1, q, size);
    }
  }

  /** `CeilDiv(n, size)` slices of `size` hold `n` elements with less than one slice to spare. */
  lemma {:induction false} CeilDivBounds(n: nat, size: nat)
    requires size > 0
    ensures n <= CeilDiv(n, size) * size < n + size
    decreases n
  {
    if n > size {
      CeilDivBounds(n - size, size);
      assert CeilDiv(n, size) * size == size + CeilDiv(n - size, size) * size;
    }
  }

  /** `CeilDiv` is the rounded-up quotient. */
  lemma CeilDivIsCeiling(n: nat, size: nat)
    requires size > 0
    ensures CeilDiv(n, size) == (n + size - 1) / size
  {
    var c := CeilDiv(n, size);
    CeilDivBounds(n, size);
    if c == 0 {
      DivUnique(n + size - 1, size, 0);
    } else {
      MulMonotone(c - 1, c, size);
      assert c * size == (c - 1) * size + size;
      DivUnique(n + size - 1, size, c);
    }
  }

  /** The slices `names[i:i + size]` for i = 0, size, 2*size, ..., as a value; there are
      ceil(n / size) of them. */
  function Slices<T>(names: seq<T>, size: nat): (groups: seq<seq<T>>)
    requires size > 0
    ensures |groups| == CeilDiv(|names|, size)
    decreases |names|
  {
    if names == [] then []
    else if |names| <= size then [names]
    else [names[..size]] + Slices(names[size..], size)
  }

  /** The slices rebuild the list. */
  lemma {:induction false} SlicesFlatten<T>(names: seq<T>, size: nat)
    requires size > 0
    ensures Flatten(Slices(names, size)) == names
    decreases |names|
  {
    if |names| > size {
      var groups := Slices(names, size);
      assert groups[1..] == Slices(names[size..], size);
      SlicesFlatten(names[size..], size);
      assert names == names[..size] + names[size..];
    } else if names != [] {
      assert Slices(names, size)[1..] == [];
    }
  }

  /** No slice is empty or longer than `size`, and all but the last have exactly `size`
      elements. */
  lemma {:induction false} SlicesSizes<T>(names: seq<T>, size: nat)
    requires size > 0
    ensures forall g :: g in Slices(names, size) ==> 0 < |g| <= size
    ensures forall k :: 0 <= k < |Slices(names, size)| - 1 ==> |Slices(names, size)[k]| == size
    decreases |names|
  {
    if |names| > size {
      var groups := Slices(names, size);
      var rest := Slices(names[size..], size);
      assert groups == [names[..size]] + rest;
      SlicesSizes(names[size..], size);
      assert forall k :: 1 <= k < |groups| ==> groups[k] == rest[k - 1];
    }
  }

  /** `chunks(file_names, size)`: slices `names[i:i + size]` for i = 0, size, 2*size, ...
      The slices rebuild the list, none is empty, none exceeds `size`, all but
      the last have exactly `size` elements, and there are ceil(n / size) of them. */
  method Chunks<T>(names: seq<T>, size: nat) returns (groups: seq<seq<T>>)
    requires size > 0
    ensures groups == Slices(names, size)
    ensures Flatten(groups) == names
    ensures forall g :: g in groups ==> 0 < |g| <= size
    ensures forall k :: 0 <= k < |groups| - 1 ==> |groups[k]| == size
    ensures |groups| == CeilDiv(|names|, size)
  {
    groups := [];
    var i := 0;
    while i < |names|
      invariant i <= |names| ==> groups + Slices(names[i..], size) == Slices(names, size)
      invariant i > |names| ==> groups == Slices(names, size)
    {
      var hi := if i + size <= |names| then i + size else |names|;
      var slice := names[i..hi];
      if i + size < |names| {
        assert names[i..][..size] == slice && names[i..][size..] == names[i + size..];
        assert Slices(names[i..], size) == [slice] + Slices(names[i + size..], size);
      } else {
        assert names[i..] == slice;
        assert Slices(names[i..], size) == [slice];
        if i + size == |names| {
          assert names[i + size..] == [];
        }
      }
      groups := groups + [slice];
      i := i + size;
    }
    if i == |names| {
      assert names[i..] == [];
    }
    SlicesFlatten(names, size);
    SlicesSizes(names, size);
  }

  /** `n` elements fit in `k` slices of `size` when n <= k * size. */
  lemma {:induction false} CeilDivAtMost(n: nat, size: nat, k: nat)
    requires size > 0
    requires n <= k * size
    ensures CeilDiv(n, size) <= k
  {
    if n > 0 {
      assert k > 0;
      assert (k - 1) * size == k * size - size;
      CeilDivAtMost(if n <= size then 0 else n - size, size, k - 1);
    }
  }

  /** The slice size the caller uses: `int(len(keys) / threads) + 1`. */
  function GroupSize(n: nat, threads: nat): (size: nat)
    requires threads > 0
    ensures size > 0
  {
    n / threads + 1
  }

  /** With the caller's slice size no more than `threads` slices are made, so
      every worker receives at most one slice. */
  lemma GroupCountAtMostThreads(n: nat, threads: nat)
    requires threads > 0
    ensures CeilDiv(n, GroupSize(n, threads)) <= threads
  {
    var q := n / threads;
    assert n == threads * q + n % threads;
    assert threads * GroupSize(n, threads) == threads * q + threads;
    CeilDivAtMost(n, GroupSize(n, threads), threads);
  }

  /** Line 111 of the stitcher: partition the keys for `threads` workers. */
  method PartitionKeys<T>(keys: seq<T>, threads: nat) returns (groups: seq<seq<T>>)
    requires threads > 0
    ensures groups == Slices(keys, GroupSize(|keys|, threads))
    ensures Flatten(groups) == keys
    ensures |groups| == CeilDiv(|keys|, GroupSize(|keys|, threads)) <= threads
    ensures forall g :: g in groups ==> 0 < |g| <= GroupSize(|keys|, threads)
  {
    groups := Chunks(keys, GroupSize(|keys|, threads));
    GroupCountAtMostThreads(|keys|, threads);
  }
}
