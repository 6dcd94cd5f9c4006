/** `mergeSort` of src/utils/sortingAlgorithms.ts: top-down merge sort whose
    `merge` closure copies the two runs out, writes the merge back into the
    range one cell at a time (each write counted as a swap and recorded), and
    marks the range as sorted. While a merge is under way the array can hold a
    value twice, so intermediate snapshots need not be permutations. */
module RecordedMerge {
  import opened Ordering
  import opened SortSteps

  /** The bookkeeping: the log, the comparison counter matching the
      `comparing` steps, and either no write so far changed the array or some
      snapshot already is not a permutation of the input. */
  ghost predicate Copying(a: seq<int>, arr: seq<int>, steps: seq<Step>, comparisons: nat, swaps: nat)
  {
    && |a| == |arr|
    && Logged(arr, steps, swaps)
    && comparisons == CountComparing(steps)
    && (a == arr || !SnapshotsPermute(steps, multiset(arr)))
  }

  /** The number of writes `mergeSortHelper(left, right)` makes: every merge
      writes its whole range, whatever the values. */
  function Writes(left: int, right: int): (w: nat)
    ensures left < right ==> w >= right - left + 1
    decreases right - left
  {
    if left < right then
      var mid := (left + right) / 2;
      Writes(left, mid) + Writes(mid + 1, right) + (right - left + 1)
    else 0
  }

  /** Sorting both halves and merging them adds up the writes of the three parts. */
  lemma WritesAdded(left: int, mid: int, right: int, w0: nat, w1: nat, w2: nat, w3: nat)
    requires left < right && mid == (left + right) / 2
    requires w1 == w0 + Writes(left, mid) && w2 == w1 + Writes(mid + 1, right) && w3 == w2 + (right - left + 1)
    ensures w3 == w0 + Writes(left, right)
  {
  }

  method MergeSort(arr: seq<int>) returns (r: SortResult)
    ensures Recorded(arr, r)
    ensures Last(r.steps).sorted == Range(0, |arr|)
    ensures r.comparisons == CountComparing(r.steps)
    ensures r.swaps == Writes(0, |arr| - 1)
    ensures r.comparisons <= r.swaps
    ensures !Sorted(arr) ==> !SnapshotsPermute(r.steps, multiset(arr))
  {
    var a := new int[|arr|](k requires 0 <= k < |arr| => arr[k]);
    assert a[..] == arr;
    var steps := [Step(a[..])];
    Started(arr, Step(a[..]));
    var comparisons, swaps;
    steps, comparisons, swaps := SortRange(a, 0, a.Length - 1, arr, steps, 0, 0);
    var last := Step(a[..], sorted := Range(0, a.Length));
    Looked(a[..], arr, steps, comparisons, swaps, last);
    steps := Push(steps, last);
    r := SortResult(steps, comparisons, swaps);
    Finished(a[..], arr, steps, comparisons, swaps);
  }

  /** `mergeSortHelper(left, right)`: sorts a[left..right] by sorting both
      halves and merging them, and touches nothing outside that range. */
  method SortRange(a: array<int>, left: int, right: int, ghost arr: seq<int>, steps0: seq<Step>, comparisons0: nat, swaps0: nat)
    returns (steps: seq<Step>, comparisons: nat, swaps: nat)
    requires 0 <= left <= right + 1 <= a.Length
    requires Copying(a[..], arr, steps0, comparisons0, swaps0) && multiset(a[..]) == multiset(arr)
    modifies a
    ensures RangeSorted(old(a[..]), a[..], left, right, arr, steps, comparisons0, comparisons, swaps0, swaps)
    decreases right - left
  {
    steps, comparisons, swaps := steps0, comparisons0, swaps0;
    if left < right {
      var mid := (left + right) / 2;
      ghost var s0 := a[..];
      steps, comparisons, swaps := SortRange(a, left, mid, arr, steps, comparisons, swaps);
      ghost var s1, c1, w1 := a[..], comparisons, swaps;
      steps, comparisons, swaps := SortRange(a, mid + 1, right, arr, steps, comparisons, swaps);
      ghost var s2, c2, w2 := a[..], comparisons, swaps;
      steps, comparisons, swaps := MergeRuns(a, left, mid, right, arr, steps, comparisons, swaps);
      Combined(s0, s1, s2, a[..], left, mid, right);
      WritesAdded(left, mid, right, swaps0, w1, w2, swaps);
    } else {
      assert Kept(a[..], a[..], left, right);
    }
  }

  /** What `mergeSortHelper(left, right)` leaves, from the array s0 it began
      with: the bookkeeping holds, a[left..right] is sorted, the array is a
      permutation of the input and nothing outside the range changed; the
      range cost exactly its writes and no more comparisons than writes. */
  ghost predicate RangeSorted(s0: seq<int>, s: seq<int>, left: int, right: int, arr: seq<int>, steps: seq<Step>, c0: nat, c: nat, w0: nat, w: nat)
  {
    && 0 <= left <= right + 1 <= |s|
    && Copying(s, arr, steps, c, w) && multiset(s) == multiset(arr)
    && SortedBetween(s, left, right + 1) && Kept(s0, s, left, right)
    && w == w0 + Writes(left, right)
    && c0 <= c && c - c0 <= w - w0
  }

  /** Sorting both halves and merging them sorts the range, keeps the
      multiset and touches nothing outside the range. */
  lemma Combined(s0: seq<int>, s1: seq<int>, s2: seq<int>, s3: seq<int>, left: int, mid: int, right: int)
    requires 0 <= left <= mid < right < |s0|
    requires Kept(s0, s1, left, mid) && SortedBetween(s1, left, mid + 1)
    requires Kept(s1, s2, mid + 1, right) && SortedBetween(s2, mid + 1, right + 1)
    requires Interleaving(s3, s2, left, s2[left..mid + 1], s2[mid + 1..right + 1], mid + 1 - left, right - mid)
    ensures SortedBetween(s3, left, right + 1) && multiset(s3) == multiset(s2) && Kept(s0, s3, left, right)
  {
    assert SortedBetween(s2, left, mid + 1);
    MergedSlice(s3, s2, left, right, s2[left..mid + 1], s2[mid + 1..right + 1]);
    MergedRange(s2, s3, left, mid, right);
  }

  /** What a merge leaves: the range holds the merge of the two sorted runs,
      so it is sorted and the whole array keeps its multiset. */
  lemma MergedRange(s: seq<int>, t: seq<int>, left: int, mid: int, right: int)
    requires 0 <= left <= mid < right < |s| == |t|
    requires SortedBetween(s, left, mid + 1) && SortedBetween(s, mid + 1, right + 1)
    requires t[left..right + 1] == Merged(s[left..mid + 1], s[mid + 1..right + 1])
    requires forall k :: 0 <= k < |s| && !(left <= k < right + 1) ==> s[k] == t[k]
    ensures SortedBetween(t, left, right + 1) && multiset(t) == multiset(s)
  {
    var xs, ys := s[left..mid + 1], s[mid + 1..right + 1];
    MergedSorted(xs, ys);
    SliceSorted(t, left, right + 1);
    MergedMultiset(xs, ys);
    assert s[left..right + 1] == xs + ys;
    SpliceMultiset(s, t, left, right + 1);
  }

  lemma SliceSorted(t: seq<int>, lo: int, hi: int)
    requires 0 <= lo <= hi <= |t| && Sorted(t[lo..hi])
    ensures SortedBetween(t, lo, hi)
  {
    forall k, l | lo <= k < l < hi ensures t[k] <= t[l] {
      assert t[k] == t[lo..hi][k - lo] && t[l] == t[lo..hi][l - lo];
    }
  }

  /** A finished merge state holds the whole merge in the range. */
  lemma MergedSlice(t: seq<int>, s: seq<int>, left: int, right: int, xs: seq<int>, ys: seq<int>)
    requires Interleaving(t, s, left, xs, ys, |xs|, |ys|) && left + |xs| + |ys| == right + 1
    ensures t[left..right + 1] == Merged(xs, ys)
    ensures forall k :: 0 <= k < |s| && !(left <= k < right + 1) ==> s[k] == t[k]
  {
  }

  /** The state of `merge` after i elements of the left run and j of the right
      one have been written: a[left..left+i+j) is the first i+j elements of
      the merge, what remains of the merge is the merge of what remains of the
      runs, and nothing else differs from the array a0 the merge began with. */
  ghost predicate Interleaving(a: seq<int>, a0: seq<int>, left: int, xs: seq<int>, ys: seq<int>, i: int, j: int)
  {
    && 0 <= left && 0 <= i <= |xs| && 0 <= j <= |ys|
    && |a| == |a0| && left + |xs| + |ys| <= |a|
    && Merged(xs, ys)[i + j..] == Merged(xs[i..], ys[j..])
    && (forall t :: left <= t < left + i + j ==> a[t] == Merged(xs, ys)[t - left])
    && (forall t :: 0 <= t < |a| && !(left <= t < left + i + j) ==> a[t] == a0[t])
  }

  /** Whether the next element of the merge comes from the left run: it does
      while the right run is used up, or when its head is no larger (`<=`). */
  predicate TakeLeft(xs: seq<int>, ys: seq<int>, i: int, j: int)
    requires 0 <= i && 0 <= j
  {
    i < |xs| && (j >= |ys| || xs[i] <= ys[j])
  }

  /** Writing the next element of the merge at left+i+j advances the state:
      the head of the left run when it is taken ... */
  lemma AdvancedLeft(a: seq<int>, a0: seq<int>, left: int, xs: seq<int>, ys: seq<int>, i: int, j: int)
    requires Interleaving(a, a0, left, xs, ys, i, j) && TakeLeft(xs, ys, i, j)
    ensures Interleaving(a[left + i + j := xs[i]], a0, left, xs, ys, i + 1, j)
  {
    var m := Merged(xs, ys);
    var rest := Merged(xs[i..], ys[j..]);
    assert xs[i..][1..] == xs[i + 1..];
    assert rest == [xs[i]] + Merged(xs[i + 1..], ys[j..]);
    assert m[i + j + 1..] == rest[1..];
  }

  /** ... and the head of the right run otherwise. */
  lemma AdvancedRight(a: seq<int>, a0: seq<int>, left: int, xs: seq<int>, ys: seq<int>, i: int, j: int)
    requires Interleaving(a, a0, left, xs, ys, i, j) && j < |ys| && !TakeLeft(xs, ys, i, j)
    ensures Interleaving(a[left + i + j := ys[j]], a0, left, xs, ys, i, j + 1)
  {
    var m := Merged(xs, ys);
    var rest := Merged(xs[i..], ys[j..]);
    assert ys[j..][1..] == ys[j + 1..];
    assert rest == [ys[j]] + Merged(xs[i..], ys[j + 1..]);
    assert m[i + j + 1..] == rest[1..];
  }

  /** The `merge(left, mid, right)` closure. */
  method MergeRuns(a: array<int>, left: int, mid: int, right: int, ghost arr: seq<int>, steps0: seq<Step>, comparisons0: nat, swaps0: nat)
    returns (steps: seq<Step>, comparisons: nat, swaps: nat)
    requires 0 <= left <= mid < right < a.Length
    requires Copying(a[..], arr, steps0, comparisons0, swaps0)
    modifies a
    ensures Copying(a[..], arr, steps, comparisons, swaps)
    ensures Interleaving(a[..], old(a[..]), left, old(a[left..mid + 1]), old(a[mid + 1..right + 1]), mid + 1 - left, right - mid)
    ensures swaps == swaps0 + (right - left + 1)
    ensures comparisons0 <= comparisons <= comparisons0 + (right - left)
    ensures Last(steps).sorted == Range(left, right + 1)
  {
    var leftArr := a[left..mid + 1];
    var rightArr := a[mid + 1..right + 1];
    ghost var a0 := a[..];
    assert leftArr[0..] == leftArr && rightArr[0..] == rightArr;
    var i, j;
    i, j, steps, comparisons, swaps := Interleave(a, left, mid, leftArr, rightArr, a0, arr, steps0, comparisons0, swaps0);
    i, steps, swaps := DrainLeft(a, left, leftArr, rightArr, i, j, a0, arr, steps, comparisons, swaps);
    j, steps, swaps := DrainRight(a, left, leftArr, rightArr, i, j, a0, arr, steps, comparisons, swaps);
    var done := Step(a[..], sorted := Range(left, right + 1));
    Looked(a[..], arr, steps, comparisons, swaps, done);
    steps := Push(steps, done);
  }

  /** The first `while` of `merge`: while both runs have elements left,
      compare their heads and write the smaller, the left one on ties. */
  method Interleave(a: array<int>, left: int, mid: int, leftArr: seq<int>, rightArr: seq<int>, ghost a0: seq<int>, ghost arr: seq<int>, steps0: seq<Step>, comparisons0: nat, swaps0: nat)
    returns (i: nat, j: nat, steps: seq<Step>, comparisons: nat, swaps: nat)
    requires |leftArr| >= 1 && |rightArr| >= 1 && mid == left + |leftArr| - 1
    requires Interleaving(a[..], a0, left, leftArr, rightArr, 0, 0)
    requires Copying(a[..], arr, steps0, comparisons0, swaps0)
    modifies a
    ensures Interleaving(a[..], a0, left, leftArr, rightArr, i, j)
    ensures i == |leftArr| || j == |rightArr|
    ensures i + j < |leftArr| + |rightArr|
    ensures Copying(a[..], arr, steps, comparisons, swaps)
    ensures swaps == swaps0 + i + j && comparisons == comparisons0 + i + j
  {
    i, j := 0, 0;
    steps, comparisons, swaps := steps0, comparisons0, swaps0;
    while i < |leftArr| && j < |rightArr|
      invariant Interleaving(a[..], a0, left, leftArr, rightArr, i, j)
      invariant i + j < |leftArr| + |rightArr|
      invariant Copying(a[..], arr, steps, comparisons, swaps)
      invariant swaps == swaps0 + i + j && comparisons == comparisons0 + i + j
    {
      i, j, steps, comparisons, swaps := Take(a, left, mid, leftArr, rightArr, i, j, a0, arr, steps, comparisons, swaps);
    }
  }

  /** One iteration of the first `while`: count and record the comparison of
      the two heads, then write the smaller one. */
  method Take(a: array<int>, left: int, mid: int, leftArr: seq<int>, rightArr: seq<int>, i0: nat, j0: nat, ghost a0: seq<int>, ghost arr: seq<int>, steps0: seq<Step>, comparisons0: nat, swaps0: nat)
    returns (i: nat, j: nat, steps: seq<Step>, comparisons: nat, swaps: nat)
    requires i0 < |leftArr| && j0 < |rightArr|
    requires Interleaving(a[..], a0, left, leftArr, rightArr, i0, j0)
    requires Copying(a[..], arr, steps0, comparisons0, swaps0)
    modifies a
    ensures Interleaving(a[..], a0, left, leftArr, rightArr, i, j)
    ensures (i, j) == (if leftArr[i0] <= rightArr[j0] then (i0 + 1, j0) else (i0, j0 + 1))
    ensures Copying(a[..], arr, steps, comparisons, swaps)
    ensures swaps == swaps0 + 1 && comparisons == comparisons0 + 1
  {
    i, j := i0, j0;
    var look := Step(a[..], comparing := [left + i, mid + 1 + j]);
    Looked(a[..], arr, steps0, comparisons0, swaps0, look);
    comparisons := comparisons0 + 1;
    steps := Push(steps0, look);
    if leftArr[i] <= rightArr[j] {
      AdvancedLeft(a[..], a0, left, leftArr, rightArr, i, j);
      steps, swaps := Write(a, left + i + j, leftArr[i], arr, steps, comparisons, swaps0);
      i := i + 1;
    } else {
      AdvancedRight(a[..], a0, left, leftArr, rightArr, i, j);
      steps, swaps := Write(a, left + i + j, rightArr[j], arr, steps, comparisons, swaps0);
      j := j + 1;
    }
  }

  /** The second `while` of `merge`: copy the rest of the left run (the
      right one is used up, or this copies nothing). */
  method DrainLeft(a: array<int>, left: int, leftArr: seq<int>, rightArr: seq<int>, i0: nat, j: nat, ghost a0: seq<int>, ghost arr: seq<int>, steps0: seq<Step>, comparisons: nat, swaps0: nat)
    returns (i: nat, steps: seq<Step>, swaps: nat)
    requires Interleaving(a[..], a0, left, leftArr, rightArr, i0, j) && (i0 == |leftArr| || j == |rightArr|)
    requires Copying(a[..], arr, steps0, comparisons, swaps0)
    modifies a
    ensures Interleaving(a[..], a0, left, leftArr, rightArr, i, j) && i == |leftArr|
    ensures Copying(a[..], arr, steps, comparisons, swaps)
    ensures swaps == swaps0 + (i - i0)
  {
    i := i0;
    steps, swaps := steps0, swaps0;
    while i < |leftArr|
      invariant i0 <= i <= |leftArr| && (i == |leftArr| || j == |rightArr|)
      invariant Interleaving(a[..], a0, left, leftArr, rightArr, i, j)
      invariant Copying(a[..], arr, steps, comparisons, swaps)
      invariant swaps == swaps0 + (i - i0)
    {
      AdvancedLeft(a[..], a0, left, leftArr, rightArr, i, j);
      steps, swaps := Write(a, left + i + j, leftArr[i], arr, steps, comparisons, swaps);
      i := i + 1;
    }
  }

  /** The third `while` of `merge`: copy the rest of the right run. */
  method DrainRight(a: array<int>, left: int, leftArr: seq<int>, rightArr: seq<int>, i: nat, j0: nat, ghost a0: seq<int>, ghost arr: seq<int>, steps0: seq<Step>, comparisons: nat, swaps0: nat)
    returns (j: nat, steps: seq<Step>, swaps: nat)
    requires Interleaving(a[..], a0, left, leftArr, rightArr, i, j0) && i == |leftArr|
    requires Copying(a[..], arr, steps0, comparisons, swaps0)
    modifies a
    ensures Interleaving(a[..], a0, left, leftArr, rightArr, i, j) && j == |rightArr|
    ensures Copying(a[..], arr, steps, comparisons, swaps)
    ensures swaps == swaps0 + (j - j0)
  {
    j := j0;
    steps, swaps := steps0, swaps0;
    while j < |rightArr|
      invariant j0 <= j <= |rightArr|
      invariant Interleaving(a[..], a0, left, leftArr, rightArr, i, j)
      invariant Copying(a[..], arr, steps, comparisons, swaps)
      invariant swaps == swaps0 + (j - j0)
    {
      AdvancedRight(a[..], a0, left, leftArr, rightArr, i, j);
      steps, swaps := Write(a, left + i + j, rightArr[j], arr, steps, comparisons, swaps);
      j := j + 1;
    }
  }

  /** `array[k] = v; swaps++; steps.push({swapping: [k]})`. */
  method Write(a: array<int>, k: int, v: int, ghost arr: seq<int>, steps0: seq<Step>, comparisons: nat, swaps0: nat)
    returns (steps: seq<Step>, swaps: nat)
    requires 0 <= k < a.Length
    requires Copying(a[..], arr, steps0, comparisons, swaps0)
    modifies a
    ensures a[..] == old(a[..])[k := v]
    ensures Copying(a[..], arr, steps, comparisons, swaps)
    ensures swaps == swaps0 + 1
  {
    ghost var before := a[..];
    a[k] := v;
    var t := Step(a[..], swapping := [k]);
    Wrote(before, k, v, arr, steps0, comparisons, swaps0, t);
    swaps := swaps0 + 1;
    steps := Push(steps0, t);
  }

  /** Recording a snapshot of an unchanged array keeps the bookkeeping. */
  lemma Looked(a: seq<int>, arr: seq<int>, steps: seq<Step>, comparisons: nat, swaps: nat, t: Step)
    requires Copying(a, arr, steps, comparisons, swaps)
    requires t.snapshot == a && t.swapping == []
    ensures Copying(a, arr, Push(steps, t), comparisons + (if t.comparing != [] then 1 else 0), swaps)
  {
    Appended(arr, steps, swaps, t);
    if a != arr {
      StillMixed(steps, t, multiset(arr));
    }
  }

  /** Recording a write keeps the bookkeeping: the first write that changes
      the array leaves a snapshot that is not a permutation of the input. */
  lemma Wrote(a: seq<int>, k: nat, v: int, arr: seq<int>, steps: seq<Step>, comparisons: nat, swaps: nat, t: Step)
    requires k < |a| && Copying(a, arr, steps, comparisons, swaps)
    requires t.snapshot == a[k := v] && t.comparing == [] && t.swapping != []
    ensures Copying(a[k := v], arr, Push(steps, t), comparisons, swaps + 1)
  {
    Appended(arr, steps, swaps, t);
    if a != arr {
      StillMixed(steps, t, multiset(arr));
    } else if a[k := v] != arr {
      assert v != a[k];
      assert multiset(a[k := v]) == multiset(a) - multiset{a[k]} + multiset{v};
      assert multiset(a[k := v])[v] > multiset(a)[v];
      assert (steps + [t])[|steps|] == t;
    }
  }

  /** The final step closes the contract. */
  lemma Finished(a: seq<int>, arr: seq<int>, steps: seq<Step>, comparisons: nat, swaps: nat)
    requires Copying(a, arr, steps, comparisons, swaps) && multiset(a) == multiset(arr)
    requires SortedBetween(a, 0, |a|) && Last(steps).snapshot == a
    ensures Recorded(arr, SortResult(steps, comparisons, swaps))
    ensures !Sorted(arr) ==> !SnapshotsPermute(steps, multiset(arr))
  {
  }
}
