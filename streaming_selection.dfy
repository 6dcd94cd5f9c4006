/** `selectionSort` of algorithms/sorting.js: the same rounds as the recorded
    engine on the caller's array; each comparison against the running minimum
    is reported and shown, and the exchange is made, reported and shown only
    when the minimum is not already at i. */
module StreamingSelection {
  import opened Ordering
  import opened StreamTrace
  import RecordedSelection

  method SelectionSort(arr: array<int>) returns (trace: seq<Event>, comparisons: nat, swaps: nat)
    modifies arr
    ensures Sorted(arr[..]) && multiset(arr[..]) == multiset(old(arr[..]))
    ensures Counted(trace, comparisons, swaps)
    ensures comparisons == Pairs(arr.Length)
    ensures arr.Length >= 1 ==> swaps <= arr.Length - 1
    ensures Sorted(old(arr[..])) ==> swaps == 0 && arr[..] == old(arr[..])
    ensures arr.Length <= 1 ==> trace == []
  {
    ghost var a0 := arr[..];
    var n := arr.Length;
    trace, comparisons, swaps := [], 0, 0;
    var i := 0;
    while i < n - 1
      invariant 0 <= i <= n && (n >= 1 ==> i <= n - 1)
      invariant Streamed(arr[..], a0, trace, comparisons, swaps)
      invariant SortedBetween(arr[..], 0, i) && Parted(arr[..], i)
      invariant comparisons == Pairs(n) - Pairs(n - i)
      invariant swaps <= i
      invariant Sorted(a0) ==> arr[..] == a0 && swaps == 0
      invariant n <= 1 ==> trace == []
    {
      trace, comparisons, swaps := Round(arr, i, a0, trace, comparisons, swaps);
      i := i + 1;
    }
    if n >= 1 {
      assert Parted(arr[..], n - 1);
    }
  }

  /** One round of the outer loop: scan, then place the minimum. */
  method Round(a: array<int>, i: nat, ghost a0: seq<int>, trace0: seq<Event>, comparisons0: nat, swaps0: nat)
    returns (trace: seq<Event>, comparisons: nat, swaps: nat)
    requires i < a.Length
    requires Streamed(a[..], a0, trace0, comparisons0, swaps0)
    requires SortedBetween(a[..], 0, i) && Parted(a[..], i)
    modifies a
    ensures Streamed(a[..], a0, trace, comparisons, swaps)
    ensures SortedBetween(a[..], 0, i + 1) && Parted(a[..], i + 1)
    ensures comparisons == comparisons0 + (a.Length - i - 1)
    ensures swaps <= swaps0 + 1
    ensures Sorted(old(a[..])) ==> a[..] == old(a[..]) && swaps == swaps0
  {
    var minIdx;
    minIdx, trace, comparisons := Scan(a, i, a0, trace0, comparisons0, swaps0);
    ghost var before := a[..];
    trace, swaps := Place(a, i, minIdx, a0, trace, comparisons, swaps0);
    RecordedSelection.SelectStep(before, i, minIdx);
  }

  /** The inner `for j` loop: one reported and shown comparison per j in
      (i, n); returns the first position of a smallest element of a[i..]. */
  method Scan(a: array<int>, i: nat, ghost a0: seq<int>, trace0: seq<Event>, comparisons0: nat, swaps: nat)
    returns (minIdx: nat, trace: seq<Event>, comparisons: nat)
    requires i < a.Length
    requires Streamed(a[..], a0, trace0, comparisons0, swaps)
    ensures Streamed(a[..], a0, trace, comparisons, swaps)
    ensures RecordedSelection.FirstMinimum(a[..], i, minIdx)
    ensures comparisons == comparisons0 + (a.Length - i - 1)
    ensures i == a.Length - 1 ==> trace == trace0
  {
    minIdx := i;
    trace, comparisons := trace0, comparisons0;
    var j := i + 1;
    while j < a.Length
      invariant i + 1 <= j <= a.Length
      invariant Streamed(a[..], a0, trace, comparisons, swaps)
      invariant i <= minIdx < j
      invariant forall k :: i <= k < j ==> a[minIdx] <= a[k]
      invariant forall k :: i <= k < minIdx ==> a[minIdx] < a[k]
      invariant comparisons == comparisons0 + (j - i - 1)
      invariant j == i + 1 ==> trace == trace0
    {
      CompareShown(trace, comparisons, swaps, a[..], [minIdx, j]);
      comparisons := comparisons + 1;
      trace := trace + [Stats(comparisons, swaps), Show(a[..], [minIdx, j])];
      if a[j] < a[minIdx] {
        minIdx := j;
      }
      j := j + 1;
    }
  }

  /** The exchange after the scan, only when `minIdx !== i`. */
  method Place(a: array<int>, i: nat, minIdx: nat, ghost a0: seq<int>, trace0: seq<Event>, comparisons: nat, swaps0: nat)
    returns (trace: seq<Event>, swaps: nat)
    requires i < a.Length && minIdx < a.Length
    requires Streamed(a[..], a0, trace0, comparisons, swaps0)
    modifies a
    ensures Streamed(a[..], a0, trace, comparisons, swaps)
    ensures a[..] == Swap(old(a[..]), i, minIdx)
    ensures swaps == swaps0 + (if minIdx != i then 1 else 0)
    ensures minIdx == i ==> trace == trace0
  {
    trace, swaps := trace0, swaps0;
    if minIdx != i {
      ghost var before := a[..];
      a[i], a[minIdx] := a[minIdx], a[i];
      assert a[..] == Swap(before, i, minIdx);
      SwapShown(trace, comparisons, swaps, a[..], [i, minIdx]);
      swaps := swaps + 1;
      trace := trace + [Stats(comparisons, swaps), Show(a[..], [i, minIdx])];
    } else {
      assert a[..] == Swap(a[..], i, i);
    }
  }
}
