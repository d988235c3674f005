/**
 * Confident-anchor scan (`get_confident_positions`) over the two rows of an
 * alignment, and the contract of the global aligner whose output it reads.
 */
module Anchor {

  const Gap: char := '-'

  /** The row with its gap characters deleted. */
  function RemoveGaps(s: string): (r: string)
    ensures |r| <= |s|
  {
    if s == [] then []
    else RemoveGaps(s[..|s| - 1]) + if s[|s| - 1] == Gap then [] else [s[|s| - 1]]
  }

  /** Number of non-gap characters of a row. */
  function NonGaps(s: string): nat {
    |RemoveGaps(s)|
  }

  predicate GapFree(s: string) {
    forall i :: 0 <= i < |s| ==> s[i] != Gap
  }

  /** What the aligner promises for inputs `x`, `y`: two rows of equal length that give back
      `x` and `y` once their gaps are deleted, with no column that is a gap in both rows.
      Each row is therefore at least as long as both inputs. */
  predicate IsAlignment(x: string, y: string, rows: (string, string))
    ensures IsAlignment(x, y, rows) ==> |x| <= |rows.0| && |y| <= |rows.1| && |rows.0| == |rows.1|
  {
    && |rows.0| == |rows.1|
    && RemoveGaps(rows.0) == x && RemoveGaps(rows.1) == y
    && forall i :: 0 <= i < |rows.0| ==> rows.0[i] != Gap || rows.1[i] != Gap
  }

  /** The global aligner (`pairwise2.align.globalxx`, first alignment) returns an alignment
      for every pair of non-empty gap-free sequences. For an empty input it returns no
      alignment at all, so nothing is promised there. */
  ghost predicate AlignerContract(align: (string, string) -> (string, string)) {
    forall x, y {:trigger align(x, y)} :: GapFree(x) && GapFree(y) && x != [] && y != [] ==> IsAlignment(x, y, align(x, y))
  }

  /** Column `k` completes a run of three consecutive columns whose characters are equal. */
  predicate RunEndsAt(a: string, b: string, k: int) {
    2 <= k < |a| && k < |b| && a[k - 2] == b[k - 2] && a[k - 1] == b[k - 1] && a[k] == b[k]
  }

  /** The anchor found by scanning the columns from `from` on: `(-1, -1)` when no column at
      or after `from` completes a run of three equal columns, otherwise the non-gap counts of
      both rows up to and including the first column that does. Each count is at most its
      row's non-gap length. */
  function AnchorFrom(a: string, b: string, from: nat): (r: (int, int))
    ensures r.0 == -1 <==> r.1 == -1
    ensures r != (-1, -1) ==> 0 <= r.0 <= NonGaps(a) && 0 <= r.1 <= NonGaps(b)
    decreases |a| - from
  {
    if from >= |a| || from >= |b| then (-1 as int, -1 as int)
    else if RunEndsAt(a, b, from) then
      NonGapsPrefix(a, from + 1);
      NonGapsPrefix(b, from + 1);
      (NonGaps(a[..from + 1]), NonGaps(b[..from + 1]))
    else AnchorFrom(a, b, from + 1)
  }

  /** The anchor of an aligned pair, scanning from the first column: both counts are -1, or
      neither is and each is at most its row's non-gap length. */
  function AnchorOf(a: string, b: string): (r: (int, int))
    ensures r.0 == -1 <==> r.1 == -1
    ensures r != (-1, -1) ==> 0 <= r.0 <= NonGaps(a) && 0 <= r.1 <= NonGaps(b)
  {
    AnchorFrom(a, b, 0)
  }

  /** The scan finds nothing exactly when no column at or after `from` completes a run. */
  lemma {:induction false} AnchorFromNone(a: string, b: string, from: nat)
    ensures AnchorFrom(a, b, from) == (-1, -1) <==> forall k :: from <= k ==> !RunEndsAt(a, b, k)
    decreases |a| - from
  {
    if from < |a| && from < |b| && !RunEndsAt(a, b, from) {
      AnchorFromNone(a, b, from + 1);
    }
  }

  /** Otherwise the scan stops at the earliest column completing a run and counts the
      non-gap characters of both rows through it. */
  lemma {:induction false} AnchorFromFirstRun(a: string, b: string, from: nat)
    requires AnchorFrom(a, b, from) != (-1, -1)
    ensures exists k :: from <= k && RunEndsAt(a, b, k) && (forall j :: from <= j < k ==> !RunEndsAt(a, b, j))
                     && AnchorFrom(a, b, from) == (NonGaps(a[..k + 1]), NonGaps(b[..k + 1]))
    decreases |a| - from
  {
    if !RunEndsAt(a, b, from) {
      AnchorFromFirstRun(a, b, from + 1);
      var k :| from + 1 <= k && RunEndsAt(a, b, k) && (forall j :: from + 1 <= j < k ==> !RunEndsAt(a, b, j))
               && AnchorFrom(a, b, from + 1) == (NonGaps(a[..k + 1]), NonGaps(b[..k + 1]));
      assert forall j :: from <= j < k ==> !RunEndsAt(a, b, j);
    }
  }

  /** A prefix never has more non-gap characters than the whole row. */
  lemma {:induction false} NonGapsPrefix(s: string, n: nat)
    requires n <= |s|
    ensures NonGaps(s[..n]) <= NonGaps(s)
    decreases |s|
  {
    if n < |s| {
      assert s[..n] == s[..|s| - 1][..n];
      NonGapsPrefix(s[..|s| - 1], n);
    } else {
      assert s[..n] == s;
    }
  }

  /** Extending a prefix by one column adds one to the count unless the column is a gap. */
  lemma NonGapsStep(s: string, i: nat)
    requires i < |s|
    ensures NonGaps(s[..i + 1]) == NonGaps(s[..i]) + if s[i] == Gap then 0 else 1
  {
    assert s[..i + 1][..i] == s[..i];
  }

  /** A gap-free row loses nothing when its gaps are deleted. */
  lemma {:induction false} RemoveGapsOfGapFree(s: string)
    requires GapFree(s)
    ensures RemoveGaps(s) == s
  {
    if s != [] {
      RemoveGapsOfGapFree(s[..|s| - 1]);
      assert s == s[..|s| - 1] + [s[|s| - 1]];
    }
  }

  /** On an alignment, the three columns of a run are matches of real characters: no column
      is a gap in both rows, so equal characters are never gaps. */
  lemma RunOnAlignmentMatches(x: string, y: string, rows: (string, string), k: int)
    requires IsAlignment(x, y, rows) && RunEndsAt(rows.0, rows.1, k)
    ensures forall j :: k - 2 <= j <= k ==> rows.0[j] == rows.1[j] && rows.0[j] != Gap
  {
  }

  /** Two identical gap-free rows of length at least three anchor after their first
      three characters. */
  lemma AnchorOfIdentical(x: string)
    requires |x| >= 3 && GapFree(x)
    ensures AnchorOf(x, x) == (3, 3)
  {
    assert !RunEndsAt(x, x, 0) && !RunEndsAt(x, x, 1) && RunEndsAt(x, x, 2);
    assert AnchorFrom(x, x, 0) == AnchorFrom(x, x, 1) == AnchorFrom(x, x, 2);
    RemoveGapsOfGapFree(x[..3]);
  }

  /** `get_confident_positions`: walk the zipped columns, counting the non-gap characters of
      each row and the current run of equal columns; stop at the first column where the run
      reaches three. */
  method ConfidentPositions(a: string, b: string) returns (aIndex: int, bIndex: int)
    ensures (aIndex, bIndex) == AnchorOf(a, b)
  {
    var matchCounter := 0;
    aIndex, bIndex := 0, 0;
    var i := 0;
    while i < |a| && i < |b|
      invariant 0 <= i <= |a| && i <= |b|
      invariant aIndex == NonGaps(a[..i]) && bIndex == NonGaps(b[..i])
      invariant 0 <= matchCounter < 3 && matchCounter <= i
      invariant matchCounter >= 1 ==> a[i - 1] == b[i - 1]
      invariant matchCounter >= 2 ==> a[i - 2] == b[i - 2]
      invariant matchCounter == 0 && i >= 1 ==> a[i - 1] != b[i - 1]
      invariant matchCounter == 1 && i >= 2 ==> a[i - 2] != b[i - 2]
      invariant AnchorFrom(a, b, i) == AnchorOf(a, b)
    {
      NonGapsStep(a, i);
      NonGapsStep(b, i);
      if a[i] != Gap {
        aIndex := aIndex + 1;
      }
      if b[i] != Gap {
        bIndex := bIndex + 1;
      }
      if a[i] == b[i] {
        matchCounter := matchCounter + 1;
      } else {
        matchCounter := 0;
      }
      if matchCounter >= 3 {
        assert RunEndsAt(a, b, i);
        return;
      }
      assert !RunEndsAt(a, b, i);
      i := i + 1;
    }
    aIndex, bIndex := -1, -1;
  }
}
