/**
  The contract shared by every sorting strategy: what "non-decreasing" and
  "a permutation of the input" mean for a sequence of integers, the element
  exchange all in-place sorts are built from, and an independent reference
  sort that every strategy is proved to agree with.
 */
module Sorting {

  /** Every pair of positions in [lo, hi) is in non-decreasing order. */
  predicate SortedRange(s: seq<int>, lo: nat, hi: nat)
    requires lo <= hi <= |s|
  {
    forall p, q :: lo <= p < q < hi ==> s[p] <= s[q]
  }

  /** The whole sequence is non-decreasing. */
  predicate Sorted(s: seq<int>)
  {
    SortedRange(s, 0, |s|)
  }

  /** Each element is at most its right-hand neighbour: the form in which the
      sortedness invariant of the strategies is usually stated. */
  predicate AdjacentSorted(s: seq<int>)
  {
    forall k :: 0 <= k < |s| - 1 ==> s[k] <= s[k + 1]
  }

  /** `t` agrees with `s` at every position outside [lo, hi). */
  predicate SameOutside(s: seq<int>, t: seq<int>, lo: int, hi: int)
  {
    |s| == |t| && forall k :: 0 <= k < |s| && (k < lo || hi <= k) ==> t[k] == s[k]
  }

  /** Every element in [lo, hi) is at most `x`. */
  predicate AtMost(s: seq<int>, lo: nat, hi: nat, x: int)
    requires lo <= hi <= |s|
  {
    forall k :: lo <= k < hi ==> s[k] <= x
  }

  /** Every element in [lo, hi) is at least `x`. */
  predicate AtLeast(s: seq<int>, lo: nat, hi: nat, x: int)
    requires lo <= hi <= |s|
  {
    forall k :: lo <= k < hi ==> x <= s[k]
  }

  /** Exchange of two elements of a vector (`std::swap(data[x], data[y])`). */
  function Swap(s: seq<int>, x: nat, y: nat): (t: seq<int>)
    requires x < |s| && y < |s|
    ensures |t| == |s| && t[x] == s[y] && t[y] == s[x]
    ensures forall k :: 0 <= k < |s| && k != x && k != y ==> t[k] == s[k]
    ensures multiset(t) == multiset(s)
  {
    s[x := s[y]][y := s[x]]
  }

  /** Pairwise and adjacent sortedness are the same property. */
  lemma {:induction false} SortedIffAdjacent(s: seq<int>)
    ensures Sorted(s) <==> AdjacentSorted(s)
  {
    if AdjacentSorted(s) {
      forall p, q | 0 <= p < q < |s|
        ensures s[p] <= s[q]
      {
        AdjacentChain(s, p, q);
      }
    }
  }

  lemma {:induction false} AdjacentChain(s: seq<int>, p: nat, q: nat)
    requires AdjacentSorted(s) && p <= q < |s|
    ensures s[p] <= s[q]
    decreases q - p
  {
    if p < q {
      AdjacentChain(s, p + 1, q);
    }
  }

  /** If the elements of [lo, hi) were only rearranged, each element now
      there was somewhere in that range before. */
  lemma ElementsStayInRange(s: seq<int>, t: seq<int>, lo: nat, hi: nat, k: nat)
    requires lo <= k < hi <= |s| == |t|
    requires multiset(s[lo..hi]) == multiset(t[lo..hi])
    ensures exists q :: lo <= q < hi && s[q] == t[k]
  {
    assert t[k] == t[lo..hi][k - lo];
    assert t[k] in multiset(s[lo..hi]);
    var d :| 0 <= d < hi - lo && s[lo..hi][d] == t[k];
    assert s[lo + d] == t[k];
  }

  /** A bound on every element of a range survives any rearrangement of it. */
  lemma BoundsSurvivePermutation(s: seq<int>, t: seq<int>, lo: nat, hi: nat, x: int)
    requires lo <= hi <= |s| == |t|
    requires multiset(s[lo..hi]) == multiset(t[lo..hi])
    ensures AtMost(s, lo, hi, x) ==> AtMost(t, lo, hi, x)
    ensures AtLeast(s, lo, hi, x) ==> AtLeast(t, lo, hi, x)
  {
    forall k | lo <= k < hi
      ensures exists q :: lo <= q < hi && s[q] == t[k]
    {
      ElementsStayInRange(s, t, lo, hi, k);
    }
  }

  /** A permutation of the whole sequence that leaves everything outside
      [lo, hi) in place is a permutation of the range [lo, hi). */
  lemma SegmentPermutation(s: seq<int>, t: seq<int>, lo: nat, hi: nat)
    requires lo <= hi <= |s|
    requires SameOutside(s, t, lo, hi) && multiset(s) == multiset(t)
    ensures multiset(s[lo..hi]) == multiset(t[lo..hi])
  {
    calc {
      multiset(s[lo..hi]);
    ==  { assert s == s[..lo] + s[lo..hi] + s[hi..]; }
      multiset(s) - multiset(s[..lo]) - multiset(s[hi..]);
    ==  { assert s[..lo] == t[..lo] && s[hi..] == t[hi..]; }
      multiset(t) - multiset(t[..lo]) - multiset(t[hi..]);
    ==  { assert t == t[..lo] + t[lo..hi] + t[hi..]; }
      multiset(t[lo..hi]);
    }
  }

  /** Reference sort: insertion of `x` into a sequence, in front of the first
      element it does not exceed. */
  function Insert(x: int, s: seq<int>): (t: seq<int>)
    ensures multiset(t) == multiset(s) + multiset{x}
  {
    if s == [] || x <= s[0] then [x] + s
    else
      assert s == [s[0]] + s[1..];
      [s[0]] + Insert(x, s[1..])
  }

  /** The reference sort the three strategies are measured against. */
  function Canonical(s: seq<int>): (t: seq<int>)
    ensures multiset(t) == multiset(s)
  {
    if s == [] then []
    else
      assert s == [s[0]] + s[1..];
      Insert(s[0], Canonical(s[1..]))
  }

  lemma {:induction false} InsertSorted(x: int, s: seq<int>)
    requires Sorted(s)
    ensures Sorted(Insert(x, s))
  {
    if s == [] || x <= s[0] {
    } else {
      var tail := Insert(x, s[1..]);
      assert Sorted(s[1..]);
      InsertSorted(x, s[1..]);
      forall k | 0 <= k < |tail|
        ensures s[0] <= tail[k]
      {
        assert tail[k] in multiset(tail);
        assert tail[k] == x || tail[k] in multiset(s[1..]);
      }
    }
  }

  lemma {:induction false} CanonicalSorted(s: seq<int>)
    ensures Sorted(Canonical(s))
  {
    if s != [] {
      CanonicalSorted(s[1..]);
      InsertSorted(s[0], Canonical(s[1..]));
    }
  }

  /** There is exactly one non-decreasing arrangement of a multiset. */
  lemma {:induction false} SortedPermutationUnique(a: seq<int>, b: seq<int>)
    requires Sorted(a) && Sorted(b) && multiset(a) == multiset(b)
    ensures a == b
  {
    if a != [] {
      assert a[0] in multiset(b);
      assert b[0] in multiset(a);
      var p :| 0 <= p < |b| && b[p] == a[0];
      var q :| 0 <= q < |a| && a[q] == b[0];
      assert a[0] == b[0];
      assert a == [a[0]] + a[1..];
      assert b == [b[0]] + b[1..];
      assert multiset(a) == multiset{a[0]} + multiset(a[1..]);
      assert multiset(b) == multiset{b[0]} + multiset(b[1..]);
      assert multiset(a[1..]) == multiset(a) - multiset{a[0]};
      assert multiset(b[1..]) == multiset(b) - multiset{b[0]};
      SortedPermutationUnique(a[1..], b[1..]);
    } else {
      assert |b| == |multiset(b)| == 0;
    }
  }

  /** A result is a sorted permutation of `s` exactly when it is the
      reference sort of `s`. */
  lemma CanonicalCharacterization(s: seq<int>, r: seq<int>)
    ensures Sorted(r) && multiset(r) == multiset(s) <==> r == Canonical(s)
  {
    CanonicalSorted(s);
    if Sorted(r) && multiset(r) == multiset(s) {
      SortedPermutationUnique(r, Canonical(s));
    }
  }

  /** Sorting is the identity exactly on sequences that are already sorted. */
  lemma CanonicalFixedPoints(s: seq<int>)
    ensures Canonical(s) == s <==> Sorted(s)
  {
    CanonicalCharacterization(s, s);
  }

  /** Sorting twice is sorting once. */
  lemma CanonicalIdempotent(s: seq<int>)
    ensures Canonical(Canonical(s)) == Canonical(s)
  {
    CanonicalSorted(s);
    CanonicalFixedPoints(Canonical(s));
  }
}
