/**
  Bubble sort (main.cpp, class BubbleSort): `size()` full passes of
  adjacent compare-and-swap over the vector, with no early exit.
 */
module BubbleSort {
  import opened Sorting

  /** Positions [b, |s|) hold the largest elements of `s`, already in their
      final order: they are sorted and no earlier element exceeds them. */
  predicate Settled(s: seq<int>, b: nat)
    requires b <= |s|
  {
    SortedRange(s, b, |s|) && forall x, y :: 0 <= x < b <= y < |s| ==> s[x] <= s[y]
  }

  /** `BubbleSort::sort`. Pass `i` moves the largest element of the
      unsettled prefix to position `n - i - 1`, so after `i` passes the last
      `i` positions are settled. On length 0 the outer loop is empty and on
      length 1 the inner loop is, so no element is ever read. */
  method Sort(data: seq<int>) returns (r: seq<int>)
    ensures Sorted(r) && multiset(r) == multiset(data)
    ensures r == Canonical(data)
  {
    r := data;
    var n := |r|;
    var i := 0;
    while i < n
      invariant 0 <= i <= n == |r|
      invariant multiset(r) == multiset(data)
      invariant Settled(r, n - i)
    {
      var j := 0;
      while j < n - 1
        invariant 0 <= j <= n - 1 && |r| == n
        invariant multiset(r) == multiset(data)
        invariant Settled(r, n - i)
        invariant forall k :: 0 <= k <= j ==> r[k] <= r[j]
        invariant j >= n - i - 1 ==> forall k :: 0 <= k < n - i - 1 ==> r[k] <= r[n - i - 1]
      {
        if r[j] > r[j + 1] {
          r := Swap(r, j, j + 1);
        }
        j := j + 1;
      }
      i := i + 1;
    }
    CanonicalCharacterization(data, r);
  }
}
