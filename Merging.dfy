/**
 * `merge_sort` and `merge`: a sort that leaves its input alone and returns a
 * new sorted sequence, built by splitting at the middle, sorting both halves
 * and merging them with two cursors.
 *
 * The repository's `merge` is an unfinished stub that returns its first
 * argument; `Merge` below is the two-index merge its comments describe.
 */
module Merging {
  import opened Spec

  /**
   * The merge of two sequences, one element at a time: the smaller head goes
   * first, the left one when the heads are equal, and once either side is
   * exhausted the rest of the other follows in order.
   */
  function Merged(xs: seq<int>, ys: seq<int>): seq<int>
    decreases |xs| + |ys|
  {
    if xs == [] then ys
    else if ys == [] then xs
    else if xs[0] <= ys[0] then [xs[0]] + Merged(xs[1..], ys)
    else [ys[0]] + Merged(xs, ys[1..])
  }

  /** Merging loses and invents nothing: its multiset is the union of the inputs'. */
  lemma {:induction false} MergedPermutation(xs: seq<int>, ys: seq<int>)
    ensures multiset(Merged(xs, ys)) == multiset(xs) + multiset(ys)
    ensures |Merged(xs, ys)| == |xs| + |ys|
    decreases |xs| + |ys|
  {
    if xs != [] && ys != [] {
      if xs[0] <= ys[0] {
        MergedPermutation(xs[1..], ys);
        assert xs == [xs[0]] + xs[1..];
      } else {
        MergedPermutation(xs, ys[1..]);
        assert ys == [ys[0]] + ys[1..];
      }
    }
  }

  /**
   * Putting `h` in front of a sorted sequence made of the elements of `a`
   * and `b`, none of which is below `h`, gives a sorted sequence.
   */
  lemma SortedConsOfUnion(h: int, rest: seq<int>, a: seq<int>, b: seq<int>)
    requires Sorted(rest) && multiset(rest) == multiset(a) + multiset(b)
    requires AllAtLeast(a, h) && AllAtLeast(b, h)
    ensures Sorted([h] + rest)
  {
    assert AllAtLeast(rest, h) by {
      forall v | v in rest ensures h <= v {
        assert v in multiset(rest);
        if v in multiset(a) {
          assert v in a;
        } else {
          assert v in multiset(b);
          assert v in b;
        }
      }
    }
    SortedAroundPivot([], h, rest);
    assert [h] + rest == [] + [h] + rest;
  }

  /** Nothing in a sorted sequence is below a value its head is at least. */
  lemma SortedAtLeast(s: seq<int>, h: int)
    requires Sorted(s) && (s != [] ==> h <= s[0])
    ensures AllAtLeast(s, h)
  {
  }

  /** Merging two sorted sequences gives a sorted sequence. */
  lemma {:induction false} MergedSorted(xs: seq<int>, ys: seq<int>)
    requires Sorted(xs) && Sorted(ys)
    ensures Sorted(Merged(xs, ys))
    decreases |xs| + |ys|
  {
    if xs != [] && ys != [] {
      if xs[0] <= ys[0] {
        SortedTail(xs);
        MergedSorted(xs[1..], ys);
        MergedPermutation(xs[1..], ys);
        SortedAtLeast(xs[1..], xs[0]);
        SortedAtLeast(ys, xs[0]);
        SortedConsOfUnion(xs[0], Merged(xs[1..], ys), xs[1..], ys);
      } else {
        SortedTail(ys);
        MergedSorted(xs, ys[1..]);
        MergedPermutation(xs, ys[1..]);
        SortedAtLeast(xs, ys[0]);
        SortedAtLeast(ys[1..], ys[0]);
        SortedConsOfUnion(ys[0], Merged(xs, ys[1..]), xs, ys[1..]);
      }
    }
  }

  /** The worked example of the comments: <5, 8, 9> and <0, 2, 3, 6> merge to <0, 2, 3, 5, 6, 8, 9>. */
  lemma MergedExample()
    ensures Merged([5, 8, 9], [0, 2, 3, 6]) == [0, 2, 3, 5, 6, 8, 9]
  {
  }

  /**
   * The two-cursor merge: `i` and `j` walk `xs` and `ys`, the smaller of the
   * two current elements is pushed and its cursor advanced; when either
   * cursor reaches its end, the remainder of the other sequence is pushed.
   * The result is the merge of the inputs, so it holds exactly their
   * elements, and it is sorted when both inputs are.
   */
  method Merge(xs: seq<int>, ys: seq<int>) returns (r: seq<int>)
    ensures r == Merged(xs, ys)
    ensures multiset(r) == multiset(xs) + multiset(ys)
    ensures |r| == |xs| + |ys|
    ensures Sorted(xs) && Sorted(ys) ==> Sorted(r)
  {
    r := [];
    var i, j := 0, 0;
    while i < |xs| && j < |ys|
      invariant 0 <= i <= |xs| && 0 <= j <= |ys|
      invariant r + Merged(xs[i..], ys[j..]) == Merged(xs, ys)
      decreases |xs| - i + |ys| - j
    {
      assert xs[i..] == [xs[i]] + xs[i + 1..];
      assert ys[j..] == [ys[j]] + ys[j + 1..];
      if xs[i] <= ys[j] {
        r := r + [xs[i]];
        i := i + 1;
      } else {
        r := r + [ys[j]];
        j := j + 1;
      }
    }
    if i < |xs| {
      r := r + xs[i..];
    } else {
      r := r + ys[j..];
    }
    MergedPermutation(xs, ys);
    if Sorted(xs) && Sorted(ys) {
      MergedSorted(xs, ys);
    }
  }

  /**
   * Merging sorted permutations of the two halves of `s` gives a sorted
   * permutation of `s`.
   */
  lemma MergeHalves(s: seq<int>, middle: int, left: seq<int>, right: seq<int>)
    requires 0 <= middle <= |s|
    requires Sorted(left) && multiset(left) == multiset(s[..middle])
    requires Sorted(right) && multiset(right) == multiset(s[middle..])
    ensures Sorted(Merged(left, right))
    ensures multiset(Merged(left, right)) == multiset(s)
  {
    MergedPermutation(left, right);
    MergedSorted(left, right);
    assert s == s[..middle] + s[middle..];
  }

  /**
   * Merge sort: the empty sequence gives the empty sequence, a single
   * element gives itself, and a longer sequence is split at the rounded-down
   * middle, both halves sorted, and the results merged. The result is a
   * sorted permutation of the input; the input, a value, is untouched.
   */
  function MergeSort(s: seq<int>): (r: seq<int>)
    ensures Sorted(r)
    ensures multiset(r) == multiset(s)
    ensures |s| < 2 ==> r == s
    decreases |s|
  {
    if |s| == 0 then []
    else if |s| == 1 then [s[0]]
    else
      var middle := |s| / 2;
      var left := MergeSort(s[..middle]);
      var right := MergeSort(s[middle..]);
      MergeHalves(s, middle, left, right);
      Merged(left, right)
  }

  /** Merge sort gives back an already sorted input unchanged (the `presorted` test). */
  lemma MergeSortOfSorted(s: seq<int>)
    requires Sorted(s)
    ensures MergeSort(s) == s
  {
    SortingSortedIsIdentity(s, MergeSort(s));
  }

  /** Merge sort of the `ten_items` test input is the expected output. */
  lemma MergeSortTenItems()
    ensures MergeSort(TenItems()) == TenItemsSorted()
  {
    TenItemsExpected(MergeSort(TenItems()));
  }
}
