# Sorting strategies — a Dafny model

The repository is a C++ demonstration of the strategy pattern: an abstract
`SortingStrategy` with one operation, `sort(std::vector<int>&)`, three
implementations (`BubbleSort`, `QuickSort`, `InsertionSort`) and a `Sorter`
that holds one strategy and forwards `sortData` to it. This project models
the three sorts and the dispatch, and proves that every strategy leaves the
vector non-decreasing and a permutation of its input.

Each in-place sort is modelled as a method that takes the vector's contents
as a `seq<int>`, mutates a local copy with exactly the reads, swaps and
stores of the C++ loops, and returns the final contents. Indices are
mathematical integers. The loops carry the invariants the C++ relies on:

- Bubble sort: after `i` passes the last `i` positions are settled.
- Quicksort: every element the partition cursors read lies in `[l, r]`, and
  the first pass always swaps, so the recursion is on strictly smaller
  ranges. On exit the cursors may have stepped one place past the range
  (`i == r + 1` or `j == l - 1`).
- Insertion sort: before iteration `i` the prefix `[0, i)` is sorted and holds
  exactly the first `i` input elements, and `[i, n)` is untouched.

Modules:

- `Sorting` (sorting.dfy): sortedness, permutation, the frame predicates and
  `Swap` (`std::swap`). It also defines `Canonical`, a functional reference
  sort. It proves that a sorted permutation is unique. A result is therefore
  a sorted permutation of the input exactly when it equals `Canonical` of the
  input.
- `BubbleSort`, `QuickSort`, `InsertionSort`: one module per class of
  main.cpp. Each `Sort` is proved equal to `Canonical(data)`.
- `Strategy` (strategy.dfy): `SortingStrategy` as a closed datatype,
  `Sorter` holding one, and the dispatch.

## Model

| member | source | states |
|---|---|---|
| `BubbleSort.Sort` | main.cpp:21-29 | `n` fixed passes of adjacent compare-and-swap. The result is non-decreasing, a permutation of the input, and the reference sort of it. The outer invariant: after `i` passes the last `i` positions hold the largest elements in final order. Every read is proved in bounds, so lengths 0 and 1 read no element. |
| `QuickSort.TruncHalf` | main.cpp:46 | C++ `x / 2` truncates toward zero: twice the quotient lies between 0 and `x`, less than 2 away from `x`. |
| `QuickSort.TruncationDiffersOnEmptyEntry` | main.cpp:41-46 | At the empty vector's entry, `(0 + -1) / 2` is 0 in C++ but -1 under Dafny's Euclidean division. |
| `QuickSort.MidIndex` | main.cpp:46 | The pivot index `(l + r) / 2`, with C++ truncating division, lies inside any non-empty range `[l, r]` with `l >= 0`. |
| `QuickSort.ScanRight` | main.cpp:49 | The left cursor skips elements below the pivot. It stops at an element at least the pivot, never past a known such element in `[l, r]`, so every element it reads lies in `[l, r]`. |
| `QuickSort.ScanLeft` | main.cpp:50 | The right cursor skips elements above the pivot. It stops at an element at most the pivot, never before a known such element in `[l, r]`, so every element it reads lies in `[l, r]`. |
| `QuickSort.Partition` | main.cpp:45-52 | The partition loop. Nothing outside `[l, r]` changes and the elements are only permuted. On exit `j < i`, `l < i <= r + 1` and `l - 1 <= j < r`. Everything in `[l, i)` is at most the pivot and everything in `(j, r]` is at least the pivot. |
| `QuickSort.JoinPartitions` | main.cpp:54-55 | If both recursive ranges are sorted and the partition bounds hold, then `[l, r]` is sorted. Elements strictly between the cursors equal the pivot. |
| `QuickSort.QSort` | main.cpp:44-56 | `qsort(data, l, r)` sorts `[l, r]`, permutes only within it and leaves the rest untouched. It terminates on the measure `r - l`. |
| `QuickSort.EntryPivot` | main.cpp:40-46 | The first pivot read of `sort`, as written: `data[(0 + size() - 1) / 2]`. It is out of bounds exactly when the vector is empty, and otherwise reads exactly the element at index `(size() - 1) / 2`. |
| `QuickSort.EmptyEntryReadsOutOfBounds` | main.cpp:40-46 | On the empty vector the entry call reads index 0, which does not exist. |
| `QuickSort.Sort` | main.cpp:40-42 | `sort` with the empty vector left unchanged. For any input the result is non-decreasing, a permutation of the input, and the reference sort of it. |
| `InsertionSort.InsertAt` | main.cpp:69-75 | One outer iteration. A ghost counter of the shifts it executes equals `i - pos`. The key `data[i]` lands at `pos`. `[0, pos)` is unchanged, `[pos, i)` moves one place right, and everything after `i` is unchanged. Every shifted element is strictly greater than the key. The element left of `pos`, if any, is at most the key, so the key goes after equal elements. |
| `InsertionSort.RotationPermutes` | main.cpp:71-75 | Shifting `[pos, i)` right and storing the key at `pos` permutes the vector. |
| `InsertionSort.InsertKeepsPrefixSorted` | main.cpp:68-76 | Inserting into a sorted prefix `[0, i)` gives a sorted prefix `[0, i]`. This is the sortedness half of the outer loop invariant. |
| `InsertionSort.InsertKeepsPrefixElements` | main.cpp:68-76 | If `[0, i)` is a permutation of the first `i` input elements and `[i, n)` is untouched, then after one iteration `[0, i]` is a permutation of the first `i + 1` input elements and `[i + 1, n)` is untouched. This is the permutation half of the outer loop invariant. |
| `InsertionSort.NoShiftIffInOrder` | main.cpp:70-75 | On a sorted prefix `[0, i)`, the key stays put exactly when `[0, i]` is already sorted, and then the vector is unchanged. |
| `InsertionSort.OuterStep` | main.cpp:68-76 | One pass of the outer loop keeps its invariant: `[0, i + 1)` is sorted and a permutation of the input's first `i + 1` elements, and `[i + 1, n)` is the input's. The ghost shift count stays zero exactly while the visited prefix of the input is sorted. |
| `InsertionSort.Sort` | main.cpp:67-77 | Outer invariant: before iteration `i`, `[0, i)` is sorted and a permutation of the input's first `i` elements, and `[i, n)` is the input's. The result is non-decreasing, a permutation of the input, and the reference sort of it. A ghost counter of the shift `data[j + 1] = data[j]` is zero exactly when the input is already sorted, and then nothing moves. |
| `Strategy.SortWith` | main.cpp:6-10 | Dispatch of the `sort` operation to each implementation. Every strategy gives the reference sort of the input, so all three agree. |
| `Strategy.SortData` | main.cpp:86-88 | `Sorter::sortData` behaves like its strategy: the result is sorted, a permutation, equal to the reference sort, and equal to the input when the input is already sorted. |
| `Strategy.SampleInputSorts` | main.cpp:98-118 | The demonstration vector `[4, 3, 9, 1, 4, 7]` sorts to `[1, 3, 4, 4, 7, 9]`. |
| `Sorting.Swap` | main.cpp:25 | `std::swap` of two elements exchanges exactly those two positions and keeps the multiset of elements. |
| `Sorting.SortedIffAdjacent` | main.cpp:8 | Sorted over every pair of positions holds if and only if each element is at most its right neighbour. This is the sortedness the `sort` contract promises. |
| `Sorting.SortedPermutationUnique` | main.cpp:8 | Two sorted sequences with the same multiset of elements are equal. So the `sort` contract determines the result. |
| `Sorting.CanonicalSorted` | main.cpp:8 | The reference sort is non-decreasing. |
| `Sorting.CanonicalCharacterization` | main.cpp:8 | A sequence is a sorted permutation of `s` if and only if it is `Canonical(s)`. |
| `Sorting.CanonicalFixedPoints` | main.cpp:8 | Sorting leaves a sequence unchanged if and only if it is already sorted. |
| `Sorting.CanonicalIdempotent` | main.cpp:8 | Sorting an already sorted result changes nothing. |

## Left out

- `printVector` and `main` (console output and the fixed sample vector) are not modelled. The only thing kept from `main` is the sample lemma.
- The raw `SortingStrategy*` pointer held by `Sorter`, the constructor and the virtual destructor are not modelled. They are object plumbing with no behaviour beyond dispatch.
- Machine integers are not modelled. `size_t` wrap-around of `data.size() - 1`, the `size_t` to `int` conversions, and overflow of `l + r` are all left out. Indices are unbounded integers, and elements are compared but never computed on.
- Bubble sort for length 0 needs no special case. The C++ inner bound `size() - 1` wraps around, but the outer loop never runs, so the model's `n - 1` gives the same behaviour.
- The complexity claims in the comments are not modelled, and neither is the recursion depth of quicksort.
- Stability is not stated as a formal property over keyed elements, because the code sorts bare `int`s. `InsertionSort.InsertAt` does state the fact it rests on: the key is placed after every element equal to it.

## Findings

| source | as written | input that shows it | evidently intended | confidence | as-written member | corrected member |
|---|---|---|---|---|---|---|
| main.cpp:40-46 | `sort` calls `qsort(data, 0, size() - 1)`. The callee reads `data[(0 + -1) / 2]`, which is `data[0]`, before its loop guard `i <= j` is tested. | the empty vector | the empty vector is accepted and left unchanged, as the other two strategies do | high; not executed | `QuickSort.EmptyEntryReadsOutOfBounds` | `QuickSort.Sort` |

The code reads the pivot before any guard, so for the empty vector it reads
out of bounds. The model follows the code in
`QuickSort.EntryPivot`. The strategies use the corrected `QuickSort.Sort`.
Because C++ division truncates, `(0 + -1) / 2` is 0. Dafny's `/` would give
-1, so `MidIndex` spells the truncation out.
