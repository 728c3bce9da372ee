/**
  Quicksort (main.cpp, class QuickSort): Hoare-style partition of [l, r]
  around the element at the midpoint, then recursion on [l, j] and [i, r].
 */
module QuickSort {
  import opened Sorting

  /** C++ `x / 2` on int, which truncates toward zero (Dafny's `/` is
      Euclidean and rounds -1 / 2 down to -1). */
  function TruncHalf(x: int): (q: int)
    ensures 0 <= x ==> 0 <= 2 * q <= x < 2 * q + 2
    ensures x < 0 ==> 2 * q - 2 < x <= 2 * q <= 0
  {
    if x >= 0 then x / 2 else -((-x) / 2)
  }

  /** At the empty vector's entry index the two divisions part ways. */
  lemma TruncationDiffersOnEmptyEntry()
    ensures TruncHalf(0 + -1) == 0 && (0 + -1) / 2 == -1
  {
  }

  /** The pivot index `(l + r) / 2` of `qsort`; inside a non-empty range it
      lies within the range. */
  function MidIndex(l: int, r: int): (m: int)
    ensures 0 <= l <= r ==> l <= m <= r
  {
    TruncHalf(l + r)
  }

  /** What the top-level `sort` reads as its first pivot: the call
      `qsort(data, 0, size() - 1)` reads `data[(0 + size() - 1) / 2]` before
      the loop guard is ever tested. */
  datatype PivotRead = InBounds(value: int) | OutOfBounds(index: int)

  /** The entry read of `QuickSort::sort` as written. It is out of bounds
      exactly for the empty vector. */
  function EntryPivot(data: seq<int>): (p: PivotRead)
    ensures p.OutOfBounds? <==> |data| == 0
    ensures p.InBounds? ==> p.value in data
    ensures |data| > 0 ==> p == InBounds(data[(|data| - 1) / 2])
  {
    var m := MidIndex(0, |data| - 1);
    if 0 <= m < |data| then InBounds(data[m]) else OutOfBounds(m)
  }

  /** On an empty vector the entry call reads index 0 of a vector with no
      elements. */
  lemma EmptyEntryReadsOutOfBounds()
    ensures EntryPivot([]) == OutOfBounds(0)
  {
  }

  /** `while (data[i] < pivot) i++;`: the left cursor moves right past
      elements below the pivot. An element at least the pivot at position
      `s` of the range [l, r] stops it, so every element it reads lies in
      [l, r]. */
  method ScanRight(b: seq<int>, l: nat, r: nat, i: nat, pivot: int, ghost s: nat) returns (i': nat)
    requires l <= i <= s <= r < |b| && pivot <= b[s]
    ensures l <= i <= i' <= s <= r && pivot <= b[i']
    ensures forall k :: i <= k < i' ==> b[k] < pivot
  {
    i' := i;
    while b[i'] < pivot
      invariant l <= i <= i' <= s <= r
      invariant forall k :: i <= k < i' ==> b[k] < pivot
      decreases s - i'
    {
      i' := i' + 1;
    }
  }

  /** `while (data[j] > pivot) j--;`: the right cursor moves left past
      elements above the pivot. An element at most the pivot at position
      `t` of the range [l, r] stops it, so every element it reads lies in
      [l, r]. */
  method ScanLeft(b: seq<int>, l: nat, r: nat, j: nat, pivot: int, ghost t: nat) returns (j': nat)
    requires l <= t <= j <= r < |b| && b[t] <= pivot
    ensures l <= t <= j' <= j <= r && b[j'] <= pivot
    ensures forall k :: j' < k <= j ==> pivot < b[k]
  {
    j' := j;
    while b[j'] > pivot
      invariant l <= t <= j' <= j <= r
      invariant forall k :: j' < k <= j ==> pivot < b[k]
      decreases j' - t
    {
      j' := j' - 1;
    }
  }

  /** The partition loop of `qsort` (its first eight lines). Both cursors
      stay inside [l, r] when they index, the first pass always swaps (so
      `i > l` and `j < r`), and on exit everything left of `i` is at most the
      pivot and everything right of `j` at least the pivot. */
  method Partition(a: seq<int>, l: nat, r: nat) returns (b: seq<int>, i: int, j: int)
    requires l <= r < |a|
    ensures SameOutside(a, b, l, r + 1) && multiset(b) == multiset(a)
    ensures l < i <= r + 1 && l - 1 <= j < r && j < i
    ensures AtMost(b, l, i, a[MidIndex(l, r)])
    ensures AtLeast(b, j + 1, r + 1, a[MidIndex(l, r)])
  {
    b := a;
    i, j := l, r;
    var m := MidIndex(l, r);
    var pivot := b[m];
    while i <= j
      invariant SameOutside(a, b, l, r + 1) && multiset(b) == multiset(a)
      invariant l <= i <= r + 1 && l - 1 <= j <= r
      invariant AtMost(b, l, i, pivot) && AtLeast(b, j + 1, r + 1, pivot)
      invariant (i == l && j == r && b[m] == pivot) || (l < i && j < r)
      decreases j - i
    {
      ghost var first := i == l && j == r;
      // The pivot itself on the first pass, the element just swapped to the
      // right of j on later ones, stops the left cursor.
      ghost var s := if first then m else j + 1;
      var i' := ScanRight(b, l, r, i, pivot, s);
      assert AtMost(b, l, i', pivot);
      i := i';
      // Symmetrically for the right cursor.
      ghost var t := if first then m else i - 1;
      var j' := ScanLeft(b, l, r, j, pivot, t);
      assert AtLeast(b, j' + 1, r + 1, pivot);
      j := j';
      if i <= j {
        b := Swap(b, i, j);
        i, j := i + 1, j - 1;
      }
    }
  }

  /** After both halves are sorted, a range split by the partition is sorted:
      the left part is at most the pivot, the right part at least it, and
      whatever lies between the cursors equals it. */
  lemma JoinPartitions(b: seq<int>, l: nat, j: int, i: nat, r: nat, pivot: int)
    requires l <= j + 1 <= i <= r + 1 <= |b|
    requires AtMost(b, l, i, pivot) && AtLeast(b, j + 1, r + 1, pivot)
    requires SortedRange(b, l, j + 1) && SortedRange(b, i, r + 1)
    ensures SortedRange(b, l, r + 1)
    ensures forall k :: j < k < i ==> b[k] == pivot
  {
  }

  /** Rearranging the sub-range [lo, hi) in place keeps every bound on a
      range that encloses it or is disjoint from it. */
  lemma RearrangementKeepsBounds(s: seq<int>, t: seq<int>, lo: nat, hi: nat, l2: nat, h2: nat, x: int)
    requires lo <= hi <= |s| && l2 <= h2 <= |s|
    requires SameOutside(s, t, lo, hi) && multiset(s) == multiset(t)
    requires (l2 <= lo && hi <= h2) || h2 <= lo || hi <= l2
    ensures AtMost(s, l2, h2, x) ==> AtMost(t, l2, h2, x)
    ensures AtLeast(s, l2, h2, x) ==> AtLeast(t, l2, h2, x)
  {
    if l2 <= lo && hi <= h2 {
      SegmentPermutation(s, t, lo, hi);
      BoundsSurvivePermutation(s, t, lo, hi, x);
    }
  }

  /** Rearranging [lo, hi) in place leaves a disjoint range as sorted as it
      was. */
  lemma RearrangementKeepsOrder(s: seq<int>, t: seq<int>, lo: nat, hi: nat, l2: nat, h2: nat)
    requires lo <= hi <= |s| && l2 <= h2 <= |s|
    requires SameOutside(s, t, lo, hi)
    requires h2 <= lo || hi <= l2
    ensures SortedRange(s, l2, h2) ==> SortedRange(t, l2, h2)
  {
  }

  /** Rearranging a sub-range of [l, r] leaves the frame of [l, r] intact. */
  lemma FrameWidens(a: seq<int>, b: seq<int>, c: seq<int>, l: nat, r: nat, lo: nat, hi: nat)
    requires l <= lo && hi <= r
    requires SameOutside(a, b, l, r) && SameOutside(b, c, lo, hi)
    ensures SameOutside(a, c, l, r)
  {
  }

  /** `QuickSort::qsort(data, l, r)` for `l <= r`: the range [l, r] ends up
      sorted, holding the same elements, and nothing outside it moves. The
      recursive calls are on strictly smaller ranges because the partition
      leaves `j < r` and `i > l`. */
  method QSort(a: seq<int>, l: nat, r: nat) returns (b: seq<int>)
    requires l <= r < |a|
    ensures SameOutside(a, b, l, r + 1) && multiset(b) == multiset(a)
    ensures SortedRange(b, l, r + 1)
    decreases r - l
  {
    var i, j;
    b, i, j := Partition(a, l, r);
    ghost var pivot := a[MidIndex(l, r)];
    if l < j {
      ghost var before := b;
      b := QSort(b, l, j);
      RearrangementKeepsBounds(before, b, l, j + 1, l, i, pivot);
      RearrangementKeepsBounds(before, b, l, j + 1, j + 1, r + 1, pivot);
      FrameWidens(a, before, b, l, r + 1, l, j + 1);
    }
    if i < r {
      ghost var before := b;
      b := QSort(b, i, r);
      RearrangementKeepsBounds(before, b, i, r + 1, l, i, pivot);
      RearrangementKeepsBounds(before, b, i, r + 1, j + 1, r + 1, pivot);
      RearrangementKeepsOrder(before, b, i, r + 1, l, j + 1);
      FrameWidens(a, before, b, l, r + 1, i, r + 1);
    }
    JoinPartitions(b, l, j, i, r, pivot);
  }

  /** `QuickSort::sort` with the empty vector handled: for a non-empty
      vector this is exactly `qsort(data, 0, size() - 1)`; for the empty one
      it does nothing instead of reading `data[0]`. */
  method Sort(data: seq<int>) returns (r: seq<int>)
    ensures Sorted(r) && multiset(r) == multiset(data)
    ensures r == Canonical(data)
  {
    if |data| == 0 {
      r := data;
    } else {
      r := QSort(data, 0, |data| - 1);
    }
    CanonicalCharacterization(data, r);
  }
}
