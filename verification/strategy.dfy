/**
  The strategy pattern of main.cpp: `SortingStrategy` is the closed choice
  among the three algorithms, and `Sorter` holds one of them and forwards
  every request to it.
 */
module Strategy {
  import opened Sorting
  import BubbleSort
  import QuickSort
  import InsertionSort

  /** The implementations of `SortingStrategy::sort`. */
  datatype SortingStrategy = Bubble | Quick | Insertion

  /** A `Sorter` holds one strategy, fixed when it is built. */
  datatype Sorter = Sorter(strategy: SortingStrategy)

  /** Virtual dispatch of `sort` to the chosen implementation. Whichever
      strategy is chosen, the result is the sorted permutation of the input,
      so all three strategies produce the same sequence. */
  method SortWith(strategy: SortingStrategy, data: seq<int>) returns (r: seq<int>)
    ensures Sorted(r) && multiset(r) == multiset(data)
    ensures r == Canonical(data)
  {
    match strategy
    case Bubble =>
      r := BubbleSort.Sort(data);
    case Quick =>
      r := QuickSort.Sort(data);
    case Insertion =>
      ghost var shifts;
      r, shifts := InsertionSort.Sort(data);
  }

  /** `Sorter::sortData`: pure delegation to the held strategy. */
  method SortData(sorter: Sorter, data: seq<int>) returns (r: seq<int>)
    ensures Sorted(r) && multiset(r) == multiset(data)
    ensures r == Canonical(data)
    ensures Sorted(data) ==> r == data
  {
    r := SortWith(sorter.strategy, data);
    CanonicalFixedPoints(data);
  }

  /** The sample vector of the demonstration program sorts to
      [1, 3, 4, 4, 7, 9] under every strategy. */
  lemma SampleInputSorts()
    ensures Canonical([4, 3, 9, 1, 4, 7]) == [1, 3, 4, 4, 7, 9]
  {
    var sorted := [1, 3, 4, 4, 7, 9];
    assert AdjacentSorted(sorted);
    SortedIffAdjacent(sorted);
    assert multiset([4, 3, 9, 1, 4, 7]) == multiset(sorted);
    CanonicalCharacterization([4, 3, 9, 1, 4, 7], sorted);
  }
}
