/**
  Insertion sort (main.cpp, class InsertionSort): for each position `i`
  from 1, the key `data[i]` is moved left past every strictly greater
  element of the prefix.
 */
module InsertionSort {
  import opened Sorting

  /** One iteration of the outer loop: the body that holds `key = data[i]`,
      shifts greater elements of the prefix one place right, and stores the
      key in the vacated slot `pos`. The elements shifted are exactly the run
      of elements strictly greater than the key immediately left of `i`; the
      key stops after any element equal to it. The ghost `shifts` counts the
      executions of the shift `data[j + 1] = data[j]`. */
  method InsertAt(a: seq<int>, i: nat) returns (b: seq<int>, pos: nat, ghost shifts: nat)
    requires 0 < i < |a|
    ensures |b| == |a| && multiset(b) == multiset(a)
    ensures pos <= i && b[pos] == a[i]
    ensures forall k :: 0 <= k < pos ==> b[k] == a[k]
    ensures forall k :: pos < k <= i ==> b[k] == a[k - 1]
    ensures forall k :: i < k < |a| ==> b[k] == a[k]
    ensures forall k :: pos <= k < i ==> a[k] > a[i]
    ensures pos == 0 || a[pos - 1] <= a[i]
    ensures shifts == i - pos
  {
    var key := a[i];
    var j: int := i - 1;
    b := a;
    shifts := 0;
    while j >= 0 && b[j] > key
      invariant -1 <= j < i && |b| == |a|
      invariant shifts == i - 1 - j
      invariant forall k :: 0 <= k <= j ==> b[k] == a[k]
      invariant forall k :: j + 1 < k <= i ==> b[k] == a[k - 1]
      invariant forall k :: i < k < |a| ==> b[k] == a[k]
      invariant forall k :: j < k < i ==> a[k] > key
    {
      b := b[j + 1 := b[j]];
      shifts := shifts + 1;
      j := j - 1;
    }
    b := b[j + 1 := key];
    pos := j + 1;
    RotationPermutes(a, b, pos, i);
  }

  /** Moving the element at `i` to `pos` and shifting [pos, i) one place
      right rearranges the sequence without changing its elements. */
  lemma RotationPermutes(a: seq<int>, b: seq<int>, pos: nat, i: nat)
    requires pos <= i < |a| == |b| && b[pos] == a[i]
    requires forall k :: 0 <= k < pos ==> b[k] == a[k]
    requires forall k :: pos < k <= i ==> b[k] == a[k - 1]
    requires forall k :: i < k < |a| ==> b[k] == a[k]
    ensures multiset(b) == multiset(a)
  {
    assert a == a[..pos] + a[pos..i] + [a[i]] + a[i + 1..];
    assert b == a[..pos] + [a[i]] + a[pos..i] + a[i + 1..];
  }

  /** Inserting the key at `i` into a sorted prefix [0, i) leaves [0, i]
      sorted. */
  lemma InsertKeepsPrefixSorted(a: seq<int>, b: seq<int>, i: nat, pos: nat)
    requires 0 < i < |a| == |b| && SortedRange(a, 0, i)
    requires pos <= i && b[pos] == a[i]
    requires forall k :: 0 <= k < pos ==> b[k] == a[k]
    requires forall k :: pos < k <= i ==> b[k] == a[k - 1]
    requires forall k :: pos <= k < i ==> a[k] > a[i]
    requires pos == 0 || a[pos - 1] <= a[i]
    ensures SortedRange(b, 0, i + 1)
  {
  }

  /** On a prefix that is already sorted, the key moves exactly when it is
      smaller than its left neighbour; when it stays, nothing changes. */
  lemma NoShiftIffInOrder(a: seq<int>, b: seq<int>, i: nat, pos: nat)
    requires 0 < i < |a| == |b| && SortedRange(a, 0, i)
    requires pos <= i && b[pos] == a[i]
    requires forall k :: 0 <= k < pos ==> b[k] == a[k]
    requires forall k :: pos < k <= i ==> b[k] == a[k - 1]
    requires forall k :: i < k < |a| ==> b[k] == a[k]
    requires forall k :: pos <= k < i ==> a[k] > a[i]
    requires pos == 0 || a[pos - 1] <= a[i]
    ensures pos == i <==> SortedRange(a, 0, i + 1)
    ensures pos == i ==> b == a
  {
    if pos == i {
      assert b == a;
    } else {
      assert a[pos] > a[i];
    }
  }

  /** One outer iteration keeps the bookkeeping of the outer loop: if [0, i)
      holds exactly the first `i` input elements and the rest is untouched,
      then after inserting the element at `i`, [0, i] holds exactly the first
      `i + 1` input elements and the rest is still untouched. */
  lemma InsertKeepsPrefixElements(data: seq<int>, r: seq<int>, b: seq<int>, i: nat)
    requires i < |r| == |b| == |data|
    requires r[i..] == data[i..] && multiset(r[..i]) == multiset(data[..i])
    requires multiset(b) == multiset(r)
    requires forall k :: i < k < |r| ==> b[k] == r[k]
    ensures b[i + 1..] == data[i + 1..]
    ensures multiset(b[..i + 1]) == multiset(data[..i + 1])
  {
    assert b[i + 1..] == r[i + 1..];
    assert r == r[..i + 1] + r[i + 1..];
    assert b == b[..i + 1] + b[i + 1..];
    assert multiset(b[..i + 1]) == multiset(b) - multiset(b[i + 1..]);
    assert multiset(r[..i + 1]) == multiset(r) - multiset(r[i + 1..]);
    assert r[..i + 1] == r[..i] + [r[i]];
    assert data[..i + 1] == data[..i] + [data[i]];
    assert r[i] == data[i] by { assert r[i..][0] == data[i..][0]; }
  }

  /** One pass of the outer loop of `InsertionSort::sort` with its
      bookkeeping: it keeps the prefix [0, i + 1) sorted and a permutation
      of the input's first `i + 1` elements, leaves the rest as in the input,
      and adds to the ghost count the shifts it executes. */
  method OuterStep(data: seq<int>, r: seq<int>, i: nat, ghost shifts: nat) returns (b: seq<int>, ghost shifts': nat)
    requires 0 < i < |r| == |data| && multiset(r) == multiset(data)
    requires SortedRange(r, 0, i)
    requires r[i..] == data[i..] && multiset(r[..i]) == multiset(data[..i])
    requires shifts == 0 <==> SortedRange(data, 0, i)
    requires shifts == 0 ==> r == data
    ensures |b| == |data| && multiset(b) == multiset(data)
    ensures SortedRange(b, 0, i + 1)
    ensures b[i + 1..] == data[i + 1..] && multiset(b[..i + 1]) == multiset(data[..i + 1])
    ensures shifts' == 0 <==> SortedRange(data, 0, i + 1)
    ensures shifts' == 0 ==> b == data
  {
    var pos;
    ghost var moved;
    b, pos, moved := InsertAt(r, i);
    InsertKeepsPrefixSorted(r, b, i, pos);
    InsertKeepsPrefixElements(data, r, b, i);
    if shifts == 0 {
      NoShiftIffInOrder(r, b, i, pos);
    }
    shifts' := shifts + moved;
  }

  /** `InsertionSort::sort`. Before iteration `i` the prefix [0, i) is sorted
      and is a permutation of the first `i` input elements, and [i, n) is
      still the input's. The ghost `shifts` counts the executions of the
      shift `data[j + 1] = data[j]`; it is zero exactly when the input was
      already sorted, and then nothing moved. */
  method Sort(data: seq<int>) returns (r: seq<int>, ghost shifts: nat)
    ensures Sorted(r) && multiset(r) == multiset(data)
    ensures r == Canonical(data)
    ensures shifts == 0 <==> Sorted(data)
    ensures shifts == 0 ==> r == data
  {
    r := data;
    shifts := 0;
    var n := |r|;
    var i := 1;
    while i < n
      invariant |r| == n == |data| && multiset(r) == multiset(data)
      invariant n == 0 || 1 <= i <= n
      invariant n == 0 || SortedRange(r, 0, i)
      invariant n == 0 || (r[i..] == data[i..] && multiset(r[..i]) == multiset(data[..i]))
      invariant n == 0 || (shifts == 0 <==> SortedRange(data, 0, i))
      invariant shifts == 0 ==> r == data
      invariant n == 0 ==> shifts == 0
    {
      r, shifts := OuterStep(data, r, i, shifts);
      i := i + 1;
    }
    CanonicalCharacterization(data, r);
  }
}
