/**
 * The integer test cases both sorting files share, stated against the sort
 * methods' contracts: since a multiset has one ascending arrangement, each
 * contract pins the output down completely.
 */
module SortTests {
  import opened Seqs
  import MergeSort
  import Quicksort

  /** The only ascending arrangement of `[42, 24]`. */
  lemma TwoElements(r: seq<int>)
    requires Sorted(r) && multiset(r) == multiset([42, 24])
    ensures r == [24, 42]
  {
    SortedUnique(r, [24, 42]);
  }

  /** The only ascending arrangement of `[1, 2, 3, 4, 5]`, which is already
    * ascending. */
  lemma AlreadySorted(r: seq<int>)
    requires Sorted(r) && multiset(r) == multiset([1, 2, 3, 4, 5])
    ensures r == [1, 2, 3, 4, 5]
  {
    SortedUnique(r, [1, 2, 3, 4, 5]);
  }

  /** The only ascending arrangement of `[5, 4, 3, 2, 1]`. */
  lemma ReverseSorted(r: seq<int>)
    requires Sorted(r) && multiset(r) == multiset([5, 4, 3, 2, 1])
    ensures r == [1, 2, 3, 4, 5]
  {
    assert multiset([5, 4, 3, 2, 1]) == multiset([1, 2, 3, 4, 5]);
    AlreadySorted(r);
  }

  /** The only ascending arrangement of `[5, 2, 4, 1, 3]`. */
  lemma Shuffled(r: seq<int>)
    requires Sorted(r) && multiset(r) == multiset([5, 2, 4, 1, 3])
    ensures r == [1, 2, 3, 4, 5]
  {
    assert multiset([5, 2, 4, 1, 3]) == multiset([1, 2, 3, 4, 5]);
    AlreadySorted(r);
  }

  /** The expected outputs of the six integer tests, in source order. */
  function Expected(): seq<seq<int>>
  {
    [[], [42], [24, 42], [1, 2, 3, 4, 5], [1, 2, 3, 4, 5], [1, 2, 3, 4, 5]]
  }

  /** `merge_sort` on the empty, one-element, two-element, sorted,
    * reverse-sorted and shuffled arrays. */
  method MergeSortTests() returns (results: seq<seq<int>>)
    ensures results == Expected()
  {
    var e := MergeSort.MergeSort([]);
    var one := MergeSort.MergeSort([42]);
    var two := MergeSort.MergeSort([42, 24]);
    TwoElements(two);
    var sorted := MergeSort.MergeSort([1, 2, 3, 4, 5]);
    AlreadySorted(sorted);
    var reversed := MergeSort.MergeSort([5, 4, 3, 2, 1]);
    ReverseSorted(reversed);
    var shuffled := MergeSort.MergeSort([5, 2, 4, 1, 3]);
    Shuffled(shuffled);
    results := [e, one, two, sorted, reversed, shuffled];
  }

  /** `quicksort` on the same six arrays. */
  method QuicksortTests() returns (results: seq<seq<int>>)
    ensures results == Expected()
  {
    var e := Quicksort.Quicksort([]);
    var one := Quicksort.Quicksort([42]);
    var two := Quicksort.Quicksort([42, 24]);
    TwoElements(two);
    var sorted := Quicksort.Quicksort([1, 2, 3, 4, 5]);
    AlreadySorted(sorted);
    var reversed := Quicksort.Quicksort([5, 4, 3, 2, 1]);
    ReverseSorted(reversed);
    var shuffled := Quicksort.Quicksort([5, 2, 4, 1, 3]);
    Shuffled(shuffled);
    results := [e, one, two, sorted, reversed, shuffled];
  }
}
