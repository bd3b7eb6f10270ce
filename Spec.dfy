/**
 * What "sorted" means for the sorting library, and the facts about it that
 * every sorter relies on. Elements are mathematical integers: the library is
 * generic over `PartialOrd`, but sortedness is only meaningful for a total order.
 */
module Spec {

  /** The goal every sorter states: all pairs are in order. */
  predicate Sorted(s: seq<int>)
  {
    forall x, y :: 0 <= x < y < |s| ==> s[x] <= s[y]
  }

  /** What `is_sorted` scans for: every adjacent pair is in order. */
  predicate AdjacentSorted(s: seq<int>)
  {
    forall i :: 0 <= i < |s| - 1 ==> s[i] <= s[i + 1]
  }

  /** Every element of `s` is strictly below `pivot` (the quicksort "front"). */
  predicate AllBelow(s: seq<int>, pivot: int)
  {
    forall x | x in s :: x < pivot
  }

  /** Every element of `s` is at least `pivot` (the quicksort "back"). */
  predicate AllAtLeast(s: seq<int>, pivot: int)
  {
    forall x | x in s :: pivot <= x
  }

  /**
   * With a total order, the adjacent-pair condition checked by `is_sorted`
   * is equivalent to the all-pairs goal of the sorters.
   */
  lemma {:induction false} AdjacentSortedIffSorted(s: seq<int>)
    ensures AdjacentSorted(s) <==> Sorted(s)
  {
    if AdjacentSorted(s) && |s| > 1 {
      AdjacentSortedIffSorted(s[1..]);
      assert AdjacentSorted(s[1..]) by {
        forall i | 0 <= i < |s[1..]| - 1 ensures s[1..][i] <= s[1..][i + 1] {
          assert s[1..][i] == s[i + 1] && s[1..][i + 1] == s[i + 2];
        }
      }
      forall x, y | 0 <= x < y < |s| ensures s[x] <= s[y] {
        if x > 0 {
          assert s[x] == s[1..][x - 1] && s[y] == s[1..][y - 1];
        } else if y > 1 {
          assert s[1] <= s[y] by { assert s[1] == s[1..][0] && s[y] == s[1..][y - 1]; }
        }
      }
    }
  }

  /** The first element of a sorted sequence is its least element. */
  lemma HeadIsLeast(s: seq<int>, v: int)
    requires Sorted(s) && v in s
    ensures s[0] <= v
  {
  }

  /**
   * A sorted arrangement of a multiset is unique: two sorted sequences with
   * the same elements are equal. This is why every sorter's output is
   * determined by its input, and why sorting a sorted sequence changes nothing.
   */
  lemma {:induction false} SortedUnique(a: seq<int>, b: seq<int>)
    requires Sorted(a) && Sorted(b)
    requires multiset(a) == multiset(b)
    ensures a == b
  {
    if a == [] {
      assert |multiset(b)| == 0;
    } else {
      assert b != [] by { assert |multiset(b)| == |a|; }
      assert a[0] == b[0] by {
        assert a[0] in multiset(b);
        assert b[0] in multiset(a);
        HeadIsLeast(a, b[0]);
        HeadIsLeast(b, a[0]);
      }
      assert multiset(a[1..]) == multiset(b[1..]) by {
        assert a == [a[0]] + a[1..];
        assert b == [b[0]] + b[1..];
        assert multiset(a) == multiset{a[0]} + multiset(a[1..]);
        assert multiset(b) == multiset{b[0]} + multiset(b[1..]);
        forall v ensures multiset(a[1..])[v] == multiset(b[1..])[v] {
          assert multiset(a)[v] == multiset{a[0]}[v] + multiset(a[1..])[v];
          assert multiset(b)[v] == multiset{b[0]}[v] + multiset(b[1..])[v];
        }
      }
      SortedTail(a);
      SortedTail(b);
      SortedUnique(a[1..], b[1..]);
      assert a == [a[0]] + a[1..];
      assert b == [b[0]] + b[1..];
    }
  }

  lemma SortedTail(s: seq<int>)
    requires Sorted(s) && s != []
    ensures Sorted(s[1..])
  {
  }

  /** A sorted sequence is the only sorted permutation of itself. */
  lemma SortingSortedIsIdentity(s: seq<int>, r: seq<int>)
    requires Sorted(s) && Sorted(r) && multiset(r) == multiset(s)
    ensures r == s
  {
    SortedUnique(r, s);
  }

  /** Joining a sorted front below a pivot, the pivot, and a sorted back at or above it is sorted. */
  lemma {:induction false} SortedAroundPivot(front: seq<int>, pivot: int, back: seq<int>)
    requires Sorted(front) && AllBelow(front, pivot)
    requires Sorted(back) && AllAtLeast(back, pivot)
    ensures Sorted(front + [pivot] + back)
  {
    var s := front + [pivot] + back;
    forall x, y | 0 <= x < y < |s| ensures s[x] <= s[y] {
      if y < |front| {
      } else if x < |front| {
        assert s[x] in front;
        if y > |front| { assert s[y] in back; }
      } else if x == |front| {
        assert s[y] in back;
      } else {
        assert s[x] == back[x - |front| - 1] && s[y] == back[y - |front| - 1];
      }
    }
  }

  /** The input used by the library's `ten_items` tests. */
  function TenItems(): seq<int> { [3, 2, 0, 5, 8, 9, 6, 3, 2, 0] }

  /** The output those tests expect, which is also their `presorted` input. */
  function TenItemsSorted(): seq<int> { [0, 0, 2, 2, 3, 3, 5, 6, 8, 9] }

  /** The expected test output is sorted. */
  lemma TenItemsSortedIsSorted()
    ensures Sorted(TenItemsSorted())
  {
  }

  // The multisets of the two test vectors, taken one step at a time.
  lemma TenItemsMultiset()
    ensures multiset(TenItems()) == multiset{3, 2, 0, 5, 8, 9, 6, 3, 2, 0}
  {
  }

  lemma TenItemsSortedMultiset()
    ensures multiset(TenItemsSorted()) == multiset{0, 0, 2, 2, 3, 3, 5, 6, 8, 9}
  {
  }

  lemma TenItemsReordered()
    ensures multiset{3, 2, 0, 5, 8, 9, 6, 3, 2, 0} == multiset{0, 0, 2, 2, 3, 3, 5, 6, 8, 9}
  {
  }

  /** The expected test output is a permutation of the test input. */
  lemma TenItemsSortedIsPermutation()
    ensures multiset(TenItemsSorted()) == multiset(TenItems())
  {
    TenItemsMultiset();
    TenItemsReordered();
    TenItemsSortedMultiset();
  }

  /**
   * Whatever sorter produced it, a sorted permutation of the test input is
   * exactly the expected test output.
   */
  lemma TenItemsExpected(r: seq<int>)
    requires Sorted(r) && multiset(r) == multiset(TenItems())
    ensures r == TenItemsSorted()
  {
    TenItemsSortedIsSorted();
    TenItemsSortedIsPermutation();
    SortedUnique(r, TenItemsSorted());
  }
}
