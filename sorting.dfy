/**
 * Lexicographic ordering of integer pairs and the sort used wherever the
 * stitcher calls Python's `sorted` with a `(first, second)` key: the
 * `(pos, indx)` keys of a region and the `(start, end)` bounds of the regions.
 */
module Sorting {

  type Pair = (int, int)

  /** The order of the sort key `(element[0], element[1])`. */
  predicate LexLe(x: Pair, y: Pair) {
    x.0 < y.0 || (x.0 == y.0 && x.1 <= y.1)
  }

  predicate Sorted(s: seq<Pair>) {
    forall i, j :: 0 <= i < j < |s| ==> LexLe(s[i], s[j])
  }

  /** Sorted with no repeated element. */
  predicate StrictlySorted(s: seq<Pair>) {
    forall i, j :: 0 <= i < j < |s| ==> LexLe(s[i], s[j]) && s[i] != s[j]
  }

  predicate Distinct<T(==)>(s: seq<T>) {
    forall i, j :: 0 <= i < j < |s| ==> s[i] != s[j]
  }

  function Insert(x: Pair, s: seq<Pair>): (r: seq<Pair>)
    requires Sorted(s)
    ensures Sorted(r)
    ensures multiset(r) == multiset(s) + multiset{x}
  {
    if s == [] then [x]
    else if LexLe(x, s[0]) then [x] + s
    else
      var tail := Insert(x, s[1..]);
      assert s == [s[0]] + s[1..];
      InsertHead(x, s, tail);
      [s[0]] + tail
  }

  lemma InsertHead(x: Pair, s: seq<Pair>, tail: seq<Pair>)
    requires s != [] && Sorted(s) && !LexLe(x, s[0])
    requires Sorted(tail) && multiset(tail) == multiset(s[1..]) + multiset{x}
    ensures Sorted([s[0]] + tail)
  {
    forall j | 0 <= j < |tail| ensures LexLe(s[0], tail[j]) {
      assert tail[j] in multiset(tail);
      if tail[j] != x {
        assert tail[j] in multiset(s[1..]);
        assert tail[j] in s[1..];
      }
    }
  }

  /** The result of `sorted(s, key=lambda e: (e[0], e[1]))`: a sorted permutation of `s`. */
  function SortPairs(s: seq<Pair>): (r: seq<Pair>)
    ensures Sorted(r)
    ensures multiset(r) == multiset(s)
  {
    if s == [] then []
    else
      assert s == [s[0]] + s[1..];
      Insert(s[0], SortPairs(s[1..]))
  }

  /** Sorting keeps the members and the length of the list. */
  lemma SortedMembers(bounds: seq<Pair>)
    ensures forall b :: b in SortPairs(bounds) <==> b in bounds
    ensures |SortPairs(bounds)| == |bounds|
  {
    var s := SortPairs(bounds);
    forall b ensures b in s <==> b in bounds {
      assert b in s <==> b in multiset(s);
      assert b in bounds <==> b in multiset(bounds);
    }
    assert |multiset(s)| == |multiset(bounds)|;
  }

  /** The lexicographic order is total and antisymmetric, so the sorted permutation is unique:
      any sorting routine yields the same list as SortPairs. */
  lemma {:induction false} SortedPermutationUnique(a: seq<Pair>, b: seq<Pair>)
    requires Sorted(a) && Sorted(b)
    requires multiset(a) == multiset(b)
    ensures a == b
  {
    if a != [] {
      assert a[0] in multiset(b);
      assert b != [];
      assert b[0] in multiset(a);
      assert a[0] == b[0];
      assert a == [a[0]] + a[1..];
      assert b == [b[0]] + b[1..];
      assert multiset(a[1..]) == multiset(a) - multiset{a[0]};
      assert multiset(b[1..]) == multiset(b) - multiset{b[0]};
      SortedPermutationUnique(a[1..], b[1..]);
    }
  }

  /** Sorting a list without repetitions gives a strictly increasing list of the same elements. */
  lemma SortDistinct(s: seq<Pair>)
    requires Distinct(s)
    ensures StrictlySorted(SortPairs(s))
    ensures forall x :: x in SortPairs(s) <==> x in s
  {
    var r := SortPairs(s);
    forall x ensures x in r <==> x in s {
      assert x in r <==> x in multiset(r);
      assert x in s <==> x in multiset(s);
    }
    forall i, j | 0 <= i < j < |r| ensures r[i] != r[j] {
      if r[i] == r[j] {
        DistinctMultiplicity(s, r[i]);
        assert multiset(r)[r[i]] >= 2 by { CountTwo(r, i, j); }
        assert false;
      }
    }
  }

  lemma {:induction false} DistinctMultiplicity(s: seq<Pair>, x: Pair)
    requires Distinct(s)
    ensures multiset(s)[x] <= 1
  {
    if s != [] {
      assert s == [s[0]] + s[1..];
      DistinctMultiplicity(s[1..], x);
      if s[0] == x {
        assert x !in s[1..];
      }
    }
  }

  lemma {:induction false} CountTwo(s: seq<Pair>, i: nat, j: nat)
    requires i < j < |s| && s[i] == s[j]
    ensures multiset(s)[s[i]] >= 2
  {
    assert s == s[..i] + [s[i]] + s[i+1..j] + [s[j]] + s[j+1..];
  }
}
