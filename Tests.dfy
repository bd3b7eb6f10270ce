/**
 * The library's unit tests, stated as verified clients of the sorters: for
 * each sorter, the empty input, the ten-item input and the already sorted
 * input give the outputs the tests expect.
 */
module Tests {
  import opened Spec
  import Insertion
  import Quick
  import Merging

  // The `insertion_sort` tests; each returns the contents of the sorted array.

  /** `insertion_sort` of the empty array leaves it empty. */
  method InsertionSortEmpty() returns (r: seq<int>)
    ensures r == []
  {
    var e := new int[][];
    Insertion.InsertionSort(e);
    r := e[..];
  }

  /** `insertion_sort` of the ten-item input gives the expected sorted output. */
  method InsertionSortTenItems() returns (r: seq<int>)
    ensures r == TenItemsSorted()
  {
    var t := new int[][3, 2, 0, 5, 8, 9, 6, 3, 2, 0];
    assert t[..] == TenItems();
    Insertion.InsertionSort(t);
    r := t[..];
    TenItemsExpected(r);
  }

  /** `insertion_sort` leaves an already sorted input as it was. */
  method InsertionSortPresorted() returns (r: seq<int>)
    ensures r == TenItemsSorted()
  {
    var p := new int[][0, 0, 2, 2, 3, 3, 5, 6, 8, 9];
    assert p[..] == TenItemsSorted();
    TenItemsSortedIsSorted();
    Insertion.InsertionSort(p);
    r := p[..];
  }

  // The `quicksort` tests; each returns the contents of the sorted array.

  /** `quicksort` of the empty array leaves it empty. */
  method QuickSortEmpty() returns (r: seq<int>)
    ensures r == []
  {
    var e := new int[][];
    Quick.QuickSort(e);
    r := e[..];
  }

  /** `quicksort` of the ten-item input gives the expected sorted output. */
  method QuickSortTenItems() returns (r: seq<int>)
    ensures r == TenItemsSorted()
  {
    var t := new int[][3, 2, 0, 5, 8, 9, 6, 3, 2, 0];
    assert t[..] == TenItems();
    Quick.QuickSort(t);
    r := t[..];
    TenItemsExpected(r);
  }

  /** `quicksort` leaves an already sorted input as it was. */
  method QuickSortPresorted() returns (r: seq<int>)
    ensures r == TenItemsSorted()
  {
    var p := new int[][0, 0, 2, 2, 3, 3, 5, 6, 8, 9];
    assert p[..] == TenItemsSorted();
    TenItemsSortedIsSorted();
    Quick.QuickSort(p);
    r := p[..];
  }

  /** The `merge_sort` tests `empty`, `ten_items` and `presorted`. */
  lemma MergeSortTests()
    ensures Merging.MergeSort([]) == []
    ensures Merging.MergeSort(TenItems()) == TenItemsSorted()
    ensures Merging.MergeSort(TenItemsSorted()) == TenItemsSorted()
  {
    Merging.MergeSortTenItems();
    TenItemsSortedIsSorted();
    Merging.MergeSortOfSorted(TenItemsSorted());
  }
}
