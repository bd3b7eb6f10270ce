/**
 * `insertion_sort`: sorts a mutable slice in place by bubbling each element
 * left with adjacent swaps until it meets a neighbour that is not larger.
 */
module Insertion {
  import opened Spec

  /**
   * Exchanges two neighbouring elements (the slice's `swap(j - 1, j)`);
   * nothing else changes.
   */
  method SwapAdjacent(a: array<int>, j: int)
    requires 0 < j < a.Length
    modifies a
    ensures a[j - 1] == old(a[j]) && a[j] == old(a[j - 1])
    ensures forall k :: 0 <= k < a.Length && k != j - 1 && k != j ==> a[k] == old(a[k])
    ensures multiset(a[..]) == old(multiset(a[..]))
  {
    a[j - 1], a[j] := a[j], a[j - 1];
  }

  /**
   * Leaves the array sorted and a permutation of its old contents; an array
   * that was already sorted (the empty one included) is left untouched,
   * because the inner loop then never swaps.
   */
  method InsertionSort(a: array<int>)
    modifies a
    ensures Sorted(a[..])
    ensures multiset(a[..]) == old(multiset(a[..]))
    ensures Sorted(old(a[..])) ==> a[..] == old(a[..])
  {
    for i := 0 to a.Length
      // everything left of i is sorted; nothing from i on has moved yet
      invariant forall x, y :: 0 <= x < y < i ==> a[x] <= a[y]
      invariant forall k :: i <= k < a.Length ==> a[k] == old(a[k])
      invariant multiset(a[..]) == old(multiset(a[..]))
      invariant Sorted(old(a[..])) ==> a[..] == old(a[..])
    {
      var j := i;
      while j > 0 && a[j - 1] > a[j]
        invariant 0 <= j <= i
        // a[0..i] is in order apart from the element being bubbled, at j ...
        invariant forall x, y :: 0 <= x < y <= i && x != j && y != j ==> a[x] <= a[y]
        // ... which is no larger than anything to its right
        invariant forall y :: j < y <= i ==> a[j] <= a[y]
        invariant forall k :: i < k < a.Length ==> a[k] == old(a[k])
        invariant multiset(a[..]) == old(multiset(a[..]))
        invariant Sorted(old(a[..])) ==> a[..] == old(a[..]) && j == i
      {
        SwapAdjacent(a, j);
        j := j - 1;
      }
    }
  }
}
