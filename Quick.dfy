/**
 * `quicksort`: sorts a mutable slice in place by partitioning it around its
 * first element and recursing on the two sides, never on the pivot itself.
 *
 * A Rust sub-slice `v[lo..hi]` is modelled as the index range [lo, hi) of
 * the one array: a recursive call may change that range and nothing else.
 * The repository leaves the partition unfinished (it sets `smaller` to 0);
 * `Partition` below follows the contract the comments give for it.
 */
module Quick {
  import opened Spec

  /** Exchanges two elements (`slice::swap`); `i == j` changes nothing. */
  method Swap(a: array<int>, i: int, j: int)
    requires 0 <= i < a.Length && 0 <= j < a.Length
    modifies a
    ensures a[..] == old(a[..])[i := old(a[j])][j := old(a[i])]
    ensures multiset(a[..]) == old(multiset(a[..]))
  {
    a[i], a[j] := a[j], a[i];
  }

  /**
   * Rearranging only inside [lo, hi) keeps the multiset of that range when
   * it keeps the multiset of the whole sequence.
   */
  lemma RangePermutation(s: seq<int>, t: seq<int>, lo: int, hi: int)
    requires 0 <= lo <= hi <= |s| == |t|
    requires s[..lo] == t[..lo] && s[hi..] == t[hi..]
    requires multiset(s) == multiset(t)
    ensures multiset(s[lo..hi]) == multiset(t[lo..hi])
  {
    assert s == s[..lo] + s[lo..hi] + s[hi..];
    assert t == t[..lo] + t[lo..hi] + t[hi..];
    assert multiset(s) == multiset(s[..lo]) + multiset(s[lo..hi]) + multiset(s[hi..]);
    assert multiset(t) == multiset(t[..lo]) + multiset(t[lo..hi]) + multiset(t[hi..]);
    forall v ensures multiset(s[lo..hi])[v] == multiset(t[lo..hi])[v] {
      assert multiset(s)[v] == multiset(s[..lo])[v] + multiset(s[lo..hi])[v] + multiset(s[hi..])[v];
      assert multiset(t)[v] == multiset(t[..lo])[v] + multiset(t[lo..hi])[v] + multiset(t[hi..])[v];
    }
  }

  /**
   * Partitions [lo, hi) around its first element, the pivot: afterwards the
   * pivot sits at index `p` (the source's `smaller`), everything before it
   * in the range is strictly smaller, everything after it is at least as
   * large, the range holds the same elements as before, and nothing outside
   * it has changed.
   */
  method Partition(a: array<int>, lo: int, hi: int) returns (p: int)
    requires 0 <= lo < hi <= a.Length
    modifies a
    ensures lo <= p < hi
    ensures a[p] == old(a[lo])
    ensures forall k :: lo <= k < p ==> a[k] < a[p]
    ensures forall k :: p < k < hi ==> a[p] <= a[k]
    ensures multiset(a[..]) == old(multiset(a[..]))
    ensures a[..lo] == old(a[..lo]) && a[hi..] == old(a[hi..])
  {
    var pivot := a[lo];
    var m := lo;
    for k := lo + 1 to hi
      invariant lo <= m < k
      invariant a[lo] == pivot
      invariant forall x :: lo < x <= m ==> a[x] < pivot
      invariant forall x :: m < x < k ==> pivot <= a[x]
      invariant multiset(a[..]) == old(multiset(a[..]))
      invariant a[..lo] == old(a[..lo]) && a[hi..] == old(a[hi..])
    {
      if a[k] < pivot {
        m := m + 1;
        Swap(a, m, k);
      }
    }
    Swap(a, lo, m);
    p := m;
  }

  /**
   * After partitioning (`s1`), sorting the front [lo, p) in place (`s2`) and
   * then the back [p + 1, hi) (`s3`), the whole range [lo, hi) is sorted and
   * nothing outside it has moved.
   */
  lemma SortedAfterRecursion(s1: seq<int>, s2: seq<int>, s3: seq<int>, lo: int, p: int, hi: int)
    requires 0 <= lo <= p < hi <= |s1| == |s2| == |s3|
    requires forall k :: lo <= k < p ==> s1[k] < s1[p]
    requires forall k :: p < k < hi ==> s1[p] <= s1[k]
    requires s2[..lo] == s1[..lo] && s2[p..] == s1[p..]
    requires Sorted(s2[lo..p]) && multiset(s2[lo..p]) == multiset(s1[lo..p])
    requires s3[..p + 1] == s2[..p + 1] && s3[hi..] == s2[hi..]
    requires Sorted(s3[p + 1..hi]) && multiset(s3[p + 1..hi]) == multiset(s2[p + 1..hi])
    ensures Sorted(s3[lo..hi])
    ensures s3[..lo] == s1[..lo] && s3[hi..] == s1[hi..]
  {
    var pivot := s1[p];
    var front, back := s3[lo..p], s3[p + 1..hi];
    assert s3[p] == pivot by {
      assert s3[p] == s3[..p + 1][p] && s2[p] == s2[..p + 1][p];
      assert s2[p] == s2[p..][0] && s1[p] == s1[p..][0];
    }
    assert front == s2[lo..p] by {
      assert s3[lo..p] == s3[..p + 1][lo..p] && s2[lo..p] == s2[..p + 1][lo..p];
    }
    assert s2[p + 1..hi] == s1[p + 1..hi] by {
      assert s2[p + 1..hi] == s2[p..][1..hi - p] && s1[p + 1..hi] == s1[p..][1..hi - p];
    }
    assert AllBelow(front, pivot) by {
      forall x | x in front ensures x < pivot {
        assert x in multiset(s1[lo..p]);
        var k :| 0 <= k < p - lo && s1[lo..p][k] == x;
        assert s1[lo + k] < pivot;
      }
    }
    assert AllAtLeast(back, pivot) by {
      forall x | x in back ensures pivot <= x {
        assert x in multiset(s1[p + 1..hi]);
        var k :| 0 <= k < hi - p - 1 && s1[p + 1..hi][k] == x;
        assert pivot <= s1[p + 1 + k];
      }
    }
    assert s3[lo..hi] == front + [pivot] + back;
    SortedAroundPivot(front, pivot, back);
    assert s3[..lo] == s1[..lo] by {
      assert s3[..lo] == s3[..p + 1][..lo] && s2[..lo] == s2[..p + 1][..lo];
    }
    assert s3[hi..] == s1[hi..] by {
      assert s2[hi..] == s2[p..][hi - p..] && s1[hi..] == s1[p..][hi - p..];
    }
  }

  /**
   * Sorts the range [lo, hi) in place: afterwards it is sorted and holds the
   * same elements, and nothing outside it has changed. A range of fewer than
   * two elements is returned untouched. Both recursive calls are on ranges
   * that leave out the pivot, so each is strictly shorter.
   */
  method QuickSortRange(a: array<int>, lo: int, hi: int)
    requires 0 <= lo <= hi <= a.Length
    modifies a
    ensures Sorted(a[lo..hi])
    ensures multiset(a[lo..hi]) == old(multiset(a[lo..hi]))
    ensures multiset(a[..]) == old(multiset(a[..]))
    ensures a[..lo] == old(a[..lo]) && a[hi..] == old(a[hi..])
    ensures hi - lo < 2 ==> a[..] == old(a[..])
    decreases hi - lo
  {
    if hi - lo < 2 {
      assert a[..] == a[..lo] + a[lo..hi] + a[hi..];
      return;
    }
    var p := Partition(a, lo, hi);
    ghost var a1 := a[..];
    // Sort all the items < pivot.
    QuickSortRange(a, lo, p);
    ghost var a2 := a[..];
    // Sort all the items >= pivot, not including the pivot itself.
    QuickSortRange(a, p + 1, hi);
    SortedAfterRecursion(a1, a2, a[..], lo, p, hi);
    RangePermutation(a[..], old(a[..]), lo, hi);
  }

  /**
   * Sorts the whole array in place into a permutation of its old contents.
   * An array of fewer than two elements, and more generally one that is
   * already sorted, comes back unchanged.
   */
  method QuickSort(a: array<int>)
    modifies a
    ensures Sorted(a[..])
    ensures multiset(a[..]) == old(multiset(a[..]))
    ensures a.Length < 2 ==> a[..] == old(a[..])
    ensures Sorted(old(a[..])) ==> a[..] == old(a[..])
  {
    QuickSortRange(a, 0, a.Length);
    assert a[..] == a[0..a.Length];
    assert old(a[..]) == old(a[0..a.Length]);
    if Sorted(old(a[..])) {
      SortingSortedIsIdentity(old(a[..]), a[..]);
    }
  }
}
