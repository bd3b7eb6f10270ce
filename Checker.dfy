/**
 * `is_sorted`: a read-only scan of adjacent pairs that stops at the first
 * pair out of order.
 */
module Checker {
  import opened Spec

  /** How a call of a Rust function that may panic ends. */
  datatype Outcome = Returned(value: bool) | Panicked

  /**
   * `is_sorted` as the repository writes it. The upper bound `len - 1` is
   * computed on `usize`, so on an empty slice it underflows: a debug build
   * panics on the subtraction, and a release build wraps it to `usize::MAX`
   * and then panics on the out-of-bounds read of `slice[0]`. Either way the
   * call never returns a verdict.
   */
  method IsSortedAsWritten(s: seq<int>) returns (o: Outcome)
    ensures o == Panicked <==> |s| == 0
    ensures o.Returned? ==> (o.value <==> AdjacentSorted(s))
  {
    var len := |s|;
    if len < 1 {
      return Panicked;
    }
    for i := 0 to len - 1
      invariant forall k :: 0 <= k < i ==> s[k] <= s[k + 1]
    {
      if s[i] > s[i + 1] {
        return Returned(false);
      }
    }
    return Returned(true);
  }

  /**
   * `is_sorted` with the empty slice guarded: true exactly when every
   * adjacent pair is in order, which with a total order is the same as the
   * sorters' all-pairs goal. Empty and one-element inputs are sorted.
   */
  method IsSorted(s: seq<int>) returns (b: bool)
    ensures b <==> AdjacentSorted(s)
    ensures b <==> Sorted(s)
    ensures |s| < 2 ==> b
  {
    AdjacentSortedIffSorted(s);
    var len := |s|;
    if len == 0 {
      return true;
    }
    for i := 0 to len - 1
      invariant forall k :: 0 <= k < i ==> s[k] <= s[k + 1]
    {
      if s[i] > s[i + 1] {
        return false;
      }
    }
    return true;
  }

  /**
   * The empty slice separates the two: the code as written panics where
   * the intended check answers true.
   */
  method EmptySliceDiscrepancy() returns (asWritten: Outcome, intended: bool)
    ensures asWritten == Panicked
    ensures intended
  {
    asWritten := IsSortedAsWritten([]);
    intended := IsSorted([]);
  }
}
