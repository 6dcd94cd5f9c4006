/** `mergeSort` of algorithms/sorting.js: the same top-down merge sort as the
    recorded engine, on the caller's array. `merge` reports and shows each
    comparison of the two heads and reports each write as a swap; the writes
    of the two draining loops are also shown. */
module StreamingMerge {
  import opened Ordering
  import opened StreamTrace
  import opened RecordedMerge

  method MergeSort(arr: array<int>) returns (trace: seq<Event>, comparisons: nat, swaps: nat)
    modifies arr
    ensures Sorted(arr[..]) && multiset(arr[..]) == multiset(old(arr[..]))
    ensures Counted(trace, comparisons, swaps)
    ensures swaps == Writes(0, arr.Length - 1) && comparisons <= swaps
    ensures arr.Length <= 1 ==> trace == []
  {
    trace, comparisons, swaps := SortRange(arr, 0, arr.Length - 1, [], 0, 0);
    assert SortedBetween(arr[..], 0, arr.Length);
  }

  /** `mergeSortHelper(arr, left, right)`. */
  method SortRange(a: array<int>, left: int, right: int, trace0: seq<Event>, comparisons0: nat, swaps0: nat)
    returns (trace: seq<Event>, comparisons: nat, swaps: nat)
    requires 0 <= left <= right + 1 <= a.Length
    requires Counted(trace0, comparisons0, swaps0)
    modifies a
    ensures Counted(trace, comparisons, swaps) && multiset(a[..]) == multiset(old(a[..]))
    ensures SortedBetween(a[..], left, right + 1) && Kept(old(a[..]), a[..], left, right)
    ensures swaps == swaps0 + Writes(left, right)
    ensures comparisons0 <= comparisons && comparisons - comparisons0 <= swaps - swaps0
    ensures left >= right ==> trace == trace0
    decreases right - left
  {
    trace, comparisons, swaps := trace0, comparisons0, swaps0;
    if left < right {
      var mid := (left + right) / 2;
      ghost var s0 := a[..];
      trace, comparisons, swaps := SortRange(a, left, mid, trace, comparisons, swaps);
      ghost var s1, w1 := a[..], swaps;
      trace, comparisons, swaps := SortRange(a, mid + 1, right, trace, comparisons, swaps);
      ghost var s2, w2 := a[..], swaps;
      trace, comparisons, swaps := MergeRuns(a, left, mid, right, trace, comparisons, swaps);
      Combined(s0, s1, s2, a[..], left, mid, right);
      WritesAdded(left, mid, right, swaps0, w1, w2, swaps);
    } else {
      assert Kept(a[..], a[..], left, right);
    }
  }

  /** `merge(arr, left, mid, right)`. */
  method MergeRuns(a: array<int>, left: int, mid: int, right: int, trace0: seq<Event>, comparisons0: nat, swaps0: nat)
    returns (trace: seq<Event>, comparisons: nat, swaps: nat)
    requires 0 <= left <= mid < right < a.Length
    requires Counted(trace0, comparisons0, swaps0)
    modifies a
    ensures Counted(trace, comparisons, swaps)
    ensures Interleaving(a[..], old(a[..]), left, old(a[left..mid + 1]), old(a[mid + 1..right + 1]), mid + 1 - left, right - mid)
    ensures swaps == swaps0 + (right - left + 1)
    ensures comparisons0 <= comparisons <= comparisons0 + (right - left)
  {
    var leftArr := a[left..mid + 1];
    var rightArr := a[mid + 1..right + 1];
    ghost var a0 := a[..];
    assert leftArr[0..] == leftArr && rightArr[0..] == rightArr;
    var i, j;
    i, j, trace, comparisons, swaps := Interleave(a, left, mid, leftArr, rightArr, a0, trace0, comparisons0, swaps0);
    i, trace, swaps := DrainLeft(a, left, leftArr, rightArr, i, j, a0, trace, comparisons, swaps);
    j, trace, swaps := DrainRight(a, left, leftArr, rightArr, i, j, a0, trace, comparisons, swaps);
  }

  /** The first `while`: compare the heads, report and show the comparison,
      write the smaller one (the left one on ties) and report the write. */
  method Interleave(a: array<int>, left: int, mid: int, leftArr: seq<int>, rightArr: seq<int>, ghost a0: seq<int>, trace0: seq<Event>, comparisons0: nat, swaps0: nat)
    returns (i: nat, j: nat, trace: seq<Event>, comparisons: nat, swaps: nat)
    requires |leftArr| >= 1 && |rightArr| >= 1 && mid == left + |leftArr| - 1
    requires Interleaving(a[..], a0, left, leftArr, rightArr, 0, 0)
    requires Counted(trace0, comparisons0, swaps0)
    modifies a
    ensures Interleaving(a[..], a0, left, leftArr, rightArr, i, j)
    ensures i == |leftArr| || j == |rightArr|
    ensures i + j < |leftArr| + |rightArr|
    ensures Counted(trace, comparisons, swaps)
    ensures swaps == swaps0 + i + j && comparisons == comparisons0 + i + j
  {
    i, j := 0, 0;
    trace, comparisons, swaps := trace0, comparisons0, swaps0;
    while i < |leftArr| && j < |rightArr|
      invariant Interleaving(a[..], a0, left, leftArr, rightArr, i, j)
      invariant i + j < |leftArr| + |rightArr|
      invariant Counted(trace, comparisons, swaps)
      invariant swaps == swaps0 + i + j && comparisons == comparisons0 + i + j
    {
      CompareShown(trace, comparisons, swaps, a[..], [left + i, mid + 1 + j]);
      comparisons := comparisons + 1;
      trace := trace + [Stats(comparisons, swaps), Show(a[..], [left + i, mid + 1 + j])];
      if leftArr[i] <= rightArr[j] {
        AdvancedLeft(a[..], a0, left, leftArr, rightArr, i, j);
        a[left + i + j] := leftArr[i];
        i := i + 1;
      } else {
        AdvancedRight(a[..], a0, left, leftArr, rightArr, i, j);
        a[left + i + j] := rightArr[j];
        j := j + 1;
      }
      Swapped(trace, comparisons, swaps);
      swaps := swaps + 1;
      trace := trace + [Stats(comparisons, swaps)];
    }
  }

  /** The second `while`: copy the rest of the left run, reporting and
      showing each write. */
  method DrainLeft(a: array<int>, left: int, leftArr: seq<int>, rightArr: seq<int>, i0: nat, j: nat, ghost a0: seq<int>, trace0: seq<Event>, comparisons: nat, swaps0: nat)
    returns (i: nat, trace: seq<Event>, swaps: nat)
    requires Interleaving(a[..], a0, left, leftArr, rightArr, i0, j) && (i0 == |leftArr| || j == |rightArr|)
    requires Counted(trace0, comparisons, swaps0)
    modifies a
    ensures Interleaving(a[..], a0, left, leftArr, rightArr, i, j) && i == |leftArr|
    ensures Counted(trace, comparisons, swaps)
    ensures swaps == swaps0 + (i - i0)
  {
    i := i0;
    trace, swaps := trace0, swaps0;
    while i < |leftArr|
      invariant i0 <= i <= |leftArr| && (i == |leftArr| || j == |rightArr|)
      invariant Interleaving(a[..], a0, left, leftArr, rightArr, i, j)
      invariant Counted(trace, comparisons, swaps)
      invariant swaps == swaps0 + (i - i0)
    {
      AdvancedLeft(a[..], a0, left, leftArr, rightArr, i, j);
      a[left + i + j] := leftArr[i];
      SwapShown(trace, comparisons, swaps, a[..], [left + i + j]);
      swaps := swaps + 1;
      trace := trace + [Stats(comparisons, swaps), Show(a[..], [left + i + j])];
      i := i + 1;
    }
  }

  /** The third `while`: copy the rest of the right run. */
  method DrainRight(a: array<int>, left: int, leftArr: seq<int>, rightArr: seq<int>, i: nat, j0: nat, ghost a0: seq<int>, trace0: seq<Event>, comparisons: nat, swaps0: nat)
    returns (j: nat, trace: seq<Event>, swaps: nat)
    requires Interleaving(a[..], a0, left, leftArr, rightArr, i, j0) && i == |leftArr|
    requires Counted(trace0, comparisons, swaps0)
    modifies a
    ensures Interleaving(a[..], a0, left, leftArr, rightArr, i, j) && j == |rightArr|
    ensures Counted(trace, comparisons, swaps)
    ensures swaps == swaps0 + (j - j0)
  {
    j := j0;
    trace, swaps := trace0, swaps0;
    while j < |rightArr|
      invariant j0 <= j <= |rightArr|
      invariant Interleaving(a[..], a0, left, leftArr, rightArr, i, j)
      invariant Counted(trace, comparisons, swaps)
      invariant swaps == swaps0 + (j - j0)
    {
      AdvancedRight(a[..], a0, left, leftArr, rightArr, i, j);
      a[left + i + j] := rightArr[j];
      SwapShown(trace, comparisons, swaps, a[..], [left + i + j]);
      swaps := swaps + 1;
      trace := trace + [Stats(comparisons, swaps), Show(a[..], [left + i + j])];
      j := j + 1;
    }
  }
}
