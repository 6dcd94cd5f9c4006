/** `selectionSort` of src/utils/sortingAlgorithms.ts: round i scans a[i+1..]
    for the first smallest element, records every comparison against the
    running minimum, exchanges it into position i when it is elsewhere, and
    marks i as sorted. */
module RecordedSelection {
  import opened Ordering
  import opened SortSteps

  method SelectionSort(arr: seq<int>) returns (r: SortResult)
    ensures Recorded(arr, r)
    ensures SnapshotsPermute(r.steps, multiset(arr))
    ensures Last(r.steps).sorted == if |arr| == 0 then [-1] else Range(0, |arr|)
    ensures r.comparisons == CountComparing(r.steps) == Pairs(|arr|)
    ensures |arr| >= 1 ==> r.swaps <= |arr| - 1
    ensures Sorted(arr) ==> r.swaps == 0
  {
    var a := new int[|arr|](k requires 0 <= k < |arr| => arr[k]);
    assert a[..] == arr;
    var steps, comparisons, swaps, sorted := Rounds(a, arr);
    if a.Length >= 1 {
      RangeExtended(0, a.Length - 1);
    }
    sorted := sorted + [a.Length - 1];
    var last := Step(a[..], sorted := sorted);
    Noted(a[..], arr, steps, comparisons, swaps, last);
    steps := Push(steps, last);
    Concluded(a[..], arr, steps, comparisons, swaps);
    r := SortResult(steps, comparisons, swaps);
  }

  /** The outer `for i` loop. `sorted` is the engine's list of finished
      positions, 0..i-1 after round i-1. */
  method Rounds(a: array<int>, ghost arr: seq<int>)
    returns (steps: seq<Step>, comparisons: nat, swaps: nat, sorted: seq<int>)
    requires a[..] == arr
    modifies a
    ensures Tracked(a[..], arr, steps, comparisons, swaps)
    ensures Sorted(a[..])
    ensures comparisons == Pairs(a.Length)
    ensures sorted == Range(0, if a.Length == 0 then 0 else a.Length - 1)
    ensures a.Length >= 1 ==> swaps <= a.Length - 1
    ensures a.Length <= 1 ==> swaps == 0
    ensures Sorted(arr) ==> swaps == 0
  {
    var n := a.Length;
    steps := [Step(a[..])];
    Started(arr, Step(a[..]));
    comparisons, swaps := 0, 0;
    sorted := [];
    var i := 0;
    while i < n - 1
      invariant 0 <= i <= n && (n >= 1 ==> i <= n - 1)
      invariant Tracked(a[..], arr, steps, comparisons, swaps)
      invariant SortedBetween(a[..], 0, i) && Parted(a[..], i)
      invariant comparisons == Pairs(n) - Pairs(n - i)
      invariant sorted == Range(0, i)
      invariant swaps <= i
      invariant Sorted(arr) ==> a[..] == arr && swaps == 0
    {
      steps, comparisons, swaps := Round(a, i, sorted, arr, steps, comparisons, swaps);
      RangeExtended(0, i);
      sorted := sorted + [i];
      i := i + 1;
    }
    if n >= 1 {
      assert Parted(a[..], n - 1);
    }
  }

  /** One round of the outer loop: scan, place the minimum, and record
      position i as sorted. */
  method Round(a: array<int>, i: nat, sorted: seq<int>, ghost arr: seq<int>, steps0: seq<Step>, comparisons0: nat, swaps0: nat)
    returns (steps: seq<Step>, comparisons: nat, swaps: nat)
    requires i < a.Length
    requires Tracked(a[..], arr, steps0, comparisons0, swaps0)
    requires SortedBetween(a[..], 0, i) && Parted(a[..], i)
    modifies a
    ensures Tracked(a[..], arr, steps, comparisons, swaps)
    ensures SortedBetween(a[..], 0, i + 1) && Parted(a[..], i + 1)
    ensures comparisons == comparisons0 + (a.Length - i - 1)
    ensures swaps <= swaps0 + 1
    ensures Sorted(old(a[..])) ==> a[..] == old(a[..]) && swaps == swaps0
  {
    var minIdx;
    minIdx, steps, comparisons := Scan(a, i, sorted, arr, steps0, comparisons0, swaps0);
    ghost var before := a[..];
    steps, swaps := Place(a, i, minIdx, sorted, arr, steps, comparisons, swaps0);
    SelectStep(before, i, minIdx);
    var done := Step(a[..], sorted := sorted + [i]);
    Noted(a[..], arr, steps, comparisons, swaps, done);
    steps := Push(steps, done);
  }

  /** The inner `for j` loop of round i: records one comparison per j in
      (i, n) and returns the index of the first smallest element of a[i..]. */
  method Scan(a: array<int>, i: nat, sorted: seq<int>, ghost arr: seq<int>, steps0: seq<Step>, comparisons0: nat, swaps: nat)
    returns (minIdx: nat, steps: seq<Step>, comparisons: nat)
    requires i < a.Length
    requires Tracked(a[..], arr, steps0, comparisons0, swaps)
    ensures Tracked(a[..], arr, steps, comparisons, swaps)
    ensures FirstMinimum(a[..], i, minIdx)
    ensures comparisons == comparisons0 + (a.Length - i - 1)
  {
    minIdx := i;
    steps, comparisons := steps0, comparisons0;
    var j := i + 1;
    while j < a.Length
      invariant i + 1 <= j <= a.Length
      invariant Tracked(a[..], arr, steps, comparisons, swaps)
      invariant i <= minIdx < j
      invariant forall k :: i <= k < j ==> a[minIdx] <= a[k]
      invariant forall k :: i <= k < minIdx ==> a[minIdx] < a[k]
      invariant comparisons == comparisons0 + (j - i - 1)
    {
      var look := Step(a[..], comparing := [minIdx, j], sorted := sorted);
      Noted(a[..], arr, steps, comparisons, swaps, look);
      comparisons := comparisons + 1;
      steps := Push(steps, look);
      if a[j] < a[minIdx] {
        minIdx := j;
      }
      j := j + 1;
    }
  }

  /** m is the first position of a smallest element of s[i..]. */
  predicate FirstMinimum(s: seq<int>, i: nat, m: nat)
  {
    && i <= m < |s|
    && (forall k :: i <= k < |s| ==> s[m] <= s[k])
    && (forall k :: i <= k < m ==> s[m] < s[k])
  }

  /** The exchange after the scan, made (and counted and recorded) only when
      the minimum is not already at i. */
  method Place(a: array<int>, i: nat, minIdx: nat, sorted: seq<int>, ghost arr: seq<int>, steps0: seq<Step>, comparisons: nat, swaps0: nat)
    returns (steps: seq<Step>, swaps: nat)
    requires i < a.Length && minIdx < a.Length
    requires Tracked(a[..], arr, steps0, comparisons, swaps0)
    modifies a
    ensures Tracked(a[..], arr, steps, comparisons, swaps)
    ensures a[..] == Swap(old(a[..]), i, minIdx)
    ensures swaps == swaps0 + (if minIdx != i then 1 else 0)
  {
    steps, swaps := steps0, swaps0;
    if minIdx != i {
      ghost var before := a[..];
      a[i], a[minIdx] := a[minIdx], a[i];
      assert a[..] == Swap(before, i, minIdx);
      var t := Step(a[..], swapping := [i, minIdx], sorted := sorted);
      Exchanged(before, arr, steps, comparisons, swaps, i, minIdx, t);
      swaps := swaps + 1;
      steps := Push(steps, t);
    } else {
      assert a[..] == Swap(a[..], i, i);
    }
  }

  /** Exchanging the first minimum of s[i..] into position i extends the
      sorted prefix by one, and on a sorted array the minimum is already at i. */
  lemma SelectStep(s: seq<int>, i: nat, m: nat)
    requires FirstMinimum(s, i, m) && SortedBetween(s, 0, i) && Parted(s, i)
    ensures SortedBetween(Swap(s, i, m), 0, i + 1) && Parted(Swap(s, i, m), i + 1)
    ensures Sorted(s) ==> m == i
  {
    var r := Swap(s, i, m);
    forall k, l | 0 <= k < i + 1 <= l < |r| ensures r[k] <= r[l] {
      if k < i {
        assert r[k] == s[k];
        assert r[l] == s[l] || r[l] == s[i];
      } else {
        assert r[l] == s[l] || r[l] == s[i];
      }
    }
    forall k, l | 0 <= k < l < i + 1 ensures r[k] <= r[l] {
      assert r[k] == s[k];
    }
  }
}
