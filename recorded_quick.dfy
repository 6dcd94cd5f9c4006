/** `quickSort` of src/utils/sortingAlgorithms.ts: Lomuto partition around the
    last element of the range, then recursion on both sides. Partition exchanges
    a smaller element only when it is not already in place (`i !== j`) but
    always makes and counts the final exchange that places the pivot. */
module RecordedQuick {
  import opened Ordering
  import opened SortSteps
  import opened Lomuto

  method QuickSort(arr: seq<int>) returns (r: SortResult)
    ensures Recorded(arr, r)
    ensures SnapshotsPermute(r.steps, multiset(arr))
    ensures Last(r.steps).sorted == Range(0, |arr|)
    ensures r.comparisons == CountComparing(r.steps)
    ensures Last(r.steps).snapshot == QuickRun(arr, 0, |arr| - 1).arr
    ensures r.comparisons == QuickRun(arr, 0, |arr| - 1).comparisons
    ensures r.swaps == QuickRun(arr, 0, |arr| - 1).recordedSwaps
  {
    var a := new int[|arr|](k requires 0 <= k < |arr| => arr[k]);
    assert a[..] == arr;
    var steps := [Step(a[..])];
    Started(arr, Step(a[..]));
    var comparisons, swaps;
    steps, comparisons, swaps := SortRange(a, 0, a.Length - 1, arr, steps, 0, 0);
    var last := Step(a[..], sorted := Range(0, a.Length));
    Noted(a[..], arr, steps, comparisons, swaps, last);
    steps := Push(steps, last);
    Concluded(a[..], arr, steps, comparisons, swaps);
    r := SortResult(steps, comparisons, swaps);
  }

  /** `quickSortHelper(low, high)`: sorts a[low..high] and touches nothing
      outside it; an empty range (low = high + 1) records nothing. */
  method SortRange(a: array<int>, low: int, high: int, ghost arr: seq<int>, steps0: seq<Step>, comparisons0: nat, swaps0: nat)
    returns (steps: seq<Step>, comparisons: nat, swaps: nat)
    requires 0 <= low <= high + 1 <= a.Length
    requires Tracked(a[..], arr, steps0, comparisons0, swaps0)
    modifies a
    ensures Tracked(a[..], arr, steps, comparisons, swaps)
    ensures SortedBetween(a[..], low, high + 1) && Kept(old(a[..]), a[..], low, high)
    ensures a[..] == QuickRun(old(a[..]), low, high).arr
    ensures comparisons == comparisons0 + QuickRun(old(a[..]), low, high).comparisons
    ensures swaps == swaps0 + QuickRun(old(a[..]), low, high).recordedSwaps
    decreases high - low, 2
  {
    if low < high {
      var p;
      p, steps, comparisons, swaps := Partition(a, low, high, arr, steps0, comparisons0, swaps0);
      steps, comparisons, swaps := Sides(a, low, p, high, old(a[..]), arr, steps, comparisons0, comparisons, swaps0, swaps);
    } else {
      steps, comparisons, swaps := steps0, comparisons0, swaps0;
      assert Kept(a[..], a[..], low, high);
    }
  }

  /** The two recursive calls of `quickSortHelper(low, high)` after
      partition has split the range at p; c0 and w0 are the counters before
      partition. */
  method Sides(a: array<int>, low: int, p: int, high: int, ghost s0: seq<int>, ghost arr: seq<int>, steps0: seq<Step>,
      ghost c0: nat, comparisons0: nat, ghost w0: nat, swaps0: nat)
    returns (steps: seq<Step>, comparisons: nat, swaps: nat)
    requires 0 <= low < high < |s0| == a.Length
    requires Tracked(a[..], arr, steps0, comparisons0, swaps0) && multiset(s0) == multiset(a[..])
    requires w0 < swaps0 && Partitioned(s0, low, high) == Loop(a[..], p, swaps0 - w0 - 1)
    requires Split(a[..], low, p, high) && Kept(s0, a[..], low, high)
    requires comparisons0 == c0 + (high - low)
    modifies a
    ensures Tracked(a[..], arr, steps, comparisons, swaps)
    ensures SortedBetween(a[..], low, high + 1) && Kept(s0, a[..], low, high)
    ensures a[..] == QuickRun(s0, low, high).arr
    ensures comparisons == c0 + QuickRun(s0, low, high).comparisons
    ensures swaps == w0 + QuickRun(s0, low, high).recordedSwaps
    decreases high - low, 1
  {
    ghost var s1 := a[..];
    steps, comparisons, swaps := SortRange(a, low, p - 1, arr, steps0, comparisons0, swaps0);
    steps, comparisons, swaps := RightSide(a, low, p, high, s0, s1, arr, steps, c0, comparisons, w0, swaps);
  }

  /** The second recursive call, once the left side s1[low..p-1] is sorted. */
  method RightSide(a: array<int>, low: int, p: int, high: int, ghost s0: seq<int>, ghost s1: seq<int>, ghost arr: seq<int>,
      steps0: seq<Step>, ghost c0: nat, comparisons0: nat, ghost w0: nat, swaps0: nat)
    returns (steps: seq<Step>, comparisons: nat, swaps: nat)
    requires 0 <= low < high < |s0| == |s1| == a.Length
    requires Tracked(a[..], arr, steps0, comparisons0, swaps0) && multiset(s0) == multiset(s1) == multiset(a[..])
    requires Partitioned(s0, low, high).arr == s1 && Partitioned(s0, low, high).end == p
    requires Split(s1, low, p, high) && Kept(s0, s1, low, high)
    requires Kept(s1, a[..], low, p - 1) && SortedBetween(a[..], low, p) && a[..] == QuickRun(s1, low, p - 1).arr
    requires comparisons0 == c0 + (high - low) + QuickRun(s1, low, p - 1).comparisons
    requires swaps0 == w0 + 1 + Partitioned(s0, low, high).moved + QuickRun(s1, low, p - 1).recordedSwaps
    modifies a
    ensures Tracked(a[..], arr, steps, comparisons, swaps)
    ensures SortedBetween(a[..], low, high + 1) && Kept(s0, a[..], low, high)
    ensures a[..] == QuickRun(s0, low, high).arr
    ensures comparisons == c0 + QuickRun(s0, low, high).comparisons
    ensures swaps == w0 + QuickRun(s0, low, high).recordedSwaps
    decreases high - low, 0
  {
    ghost var s2 := a[..];
    steps, comparisons, swaps := SortRange(a, p + 1, high, arr, steps0, comparisons0, swaps0);
    ghost var s3 := a[..];
    assert multiset(s2) == multiset(s3);
    Conquered(s0, s1, s2, s3, low, p, high);
  }

  /** The range split by partition: below the pivot on the left, at least the
      pivot on the right. */
  ghost predicate Split(s: seq<int>, low: int, p: int, high: int)
  {
    && 0 <= low <= p <= high < |s|
    && (forall k :: low <= k < p ==> s[k] < s[p])
    && (forall k :: p < k <= high ==> s[p] <= s[k])
  }

  /** Partition followed by sorting both sides in place sorts the whole
      range, and is the reference run of it. */
  lemma Conquered(s0: seq<int>, s1: seq<int>, s2: seq<int>, s3: seq<int>, low: int, p: int, high: int)
    requires 0 <= low < high < |s0| && |s2| == |s3| == |s0|
    requires Partitioned(s0, low, high).arr == s1 && Partitioned(s0, low, high).end == p
    requires Split(s1, low, p, high) && Kept(s0, s1, low, high)
    requires multiset(s1) == multiset(s2) == multiset(s3)
    requires Kept(s1, s2, low, p - 1) && SortedBetween(s2, low, p) && s2 == QuickRun(s1, low, p - 1).arr
    requires Kept(s2, s3, p + 1, high) && SortedBetween(s3, p + 1, high + 1) && s3 == QuickRun(s2, p + 1, high).arr
    ensures SortedBetween(s3, low, high + 1) && Kept(s0, s3, low, high)
    ensures QuickRun(s0, low, high) == Outcome(s3,
      (high - low) + QuickRun(s1, low, p - 1).comparisons + QuickRun(s2, p + 1, high).comparisons,
      1 + Partitioned(s0, low, high).moved + QuickRun(s1, low, p - 1).recordedSwaps + QuickRun(s2, p + 1, high).recordedSwaps,
      1 + (p - low) + QuickRun(s1, low, p - 1).streamingSwaps + QuickRun(s2, p + 1, high).streamingSwaps)
  {
    SortedSides(s0, s1, s2, s3, low, p, high);
    QuickRunUnfolded(s0, Partitioned(s0, low, high), QuickRun(s1, low, p - 1), QuickRun(s2, p + 1, high), low, high);
  }

  /** Sorting both sides of a split range in place sorts the whole range. */
  lemma SortedSides(s0: seq<int>, s1: seq<int>, s2: seq<int>, s3: seq<int>, low: int, p: int, high: int)
    requires Split(s1, low, p, high) && Kept(s0, s1, low, high)
    requires multiset(s1) == multiset(s2) == multiset(s3)
    requires Kept(s1, s2, low, p - 1) && SortedBetween(s2, low, p)
    requires Kept(s2, s3, p + 1, high) && SortedBetween(s3, p + 1, high + 1)
    ensures SortedBetween(s3, low, high + 1) && Kept(s0, s3, low, high)
  {
    BelowKept(s1, s2, low, p, s1[p]);
    AtLeastKept(s2, s3, p + 1, high + 1, s1[p]);
  }

  /** Permuting [lo, hi) in place keeps "every element there is below x". */
  lemma BelowKept(s: seq<int>, t: seq<int>, lo: int, hi: int, x: int)
    requires 0 <= lo <= hi <= |s| == |t| && multiset(s) == multiset(t)
    requires forall k :: 0 <= k < |s| && !(lo <= k < hi) ==> s[k] == t[k]
    requires forall k :: lo <= k < hi ==> s[k] < x
    ensures forall k :: lo <= k < hi ==> t[k] < x
  {
    RangeMultiset(s, t, lo, hi);
    assert AllBelow(s[lo..hi], x);
    BelowPermuted(s[lo..hi], t[lo..hi], x);
    forall k | lo <= k < hi ensures t[k] < x {
      assert t[k] == t[lo..hi][k - lo];
    }
  }

  /** Permuting [lo, hi) in place keeps "every element there is at least x". */
  lemma AtLeastKept(s: seq<int>, t: seq<int>, lo: int, hi: int, x: int)
    requires 0 <= lo <= hi <= |s| == |t| && multiset(s) == multiset(t)
    requires forall k :: 0 <= k < |s| && !(lo <= k < hi) ==> s[k] == t[k]
    requires forall k :: lo <= k < hi ==> x <= s[k]
    ensures forall k :: lo <= k < hi ==> x <= t[k]
  {
    RangeMultiset(s, t, lo, hi);
    assert AllAtLeast(s[lo..hi], x);
    AtLeastPermuted(s[lo..hi], t[lo..hi], x);
    forall k | lo <= k < hi ensures x <= t[k] {
      assert t[k] == t[lo..hi][k - lo];
    }
  }

  /** `partition(low, high)`: the pivot a[high] ends at the returned index p,
      which is low plus the number of smaller elements in a[low..high-1];
      one comparison per other element of the range; the exchanges are those
      of the reference partition (one per smaller element not already in
      place) plus the pivot's. */
  method Partition(a: array<int>, low: int, high: int, ghost arr: seq<int>, steps0: seq<Step>, comparisons0: nat, swaps0: nat)
    returns (p: int, steps: seq<Step>, comparisons: nat, swaps: nat)
    requires 0 <= low < high < a.Length
    requires Tracked(a[..], arr, steps0, comparisons0, swaps0)
    modifies a
    ensures Tracked(a[..], arr, steps, comparisons, swaps)
    ensures Split(a[..], low, p, high) && Kept(old(a[..]), a[..], low, high)
    ensures a[p] == old(a[high]) && p == low + Smaller(old(a[high]), old(a[low..high]))
    ensures swaps0 < swaps && Partitioned(old(a[..]), low, high) == Loop(a[..], p, swaps - swaps0 - 1)
    ensures comparisons == comparisons0 + (high - low)
  {
    ghost var s0 := a[..];
    var look := Step(a[..], pivot := Some(high));
    Noted(a[..], arr, steps0, comparisons0, swaps0, look);
    var i;
    i, steps, comparisons, swaps := Scan(a, low, high, s0, arr, Push(steps0, look), comparisons0, swaps0);
    ghost var st := Loop(a[..], i, swaps - swaps0);
    steps, swaps := PlacePivot(a, i, high, arr, steps, comparisons, swaps);
    PivotPlaced(st, s0, low, high);
    p := i;
  }

  /** The `for j` loop of partition; i stands for the source's i + 1, the
      end of the block of smaller elements. */
  method Scan(a: array<int>, low: int, high: int, ghost s0: seq<int>, ghost arr: seq<int>, steps0: seq<Step>, comparisons0: nat, swaps0: nat)
    returns (i: int, steps: seq<Step>, comparisons: nat, swaps: nat)
    requires 0 <= low < high < a.Length && a[..] == s0
    requires Tracked(a[..], arr, steps0, comparisons0, swaps0)
    modifies a
    ensures swaps0 <= swaps && Scanning(Loop(a[..], i, swaps - swaps0), s0, low, high, high)
    ensures Tracked(a[..], arr, steps, comparisons, swaps)
    ensures comparisons == comparisons0 + (high - low)
  {
    steps, comparisons, swaps := steps0, comparisons0, swaps0;
    i := low;
    var j := low;
    ghost var moved: nat := 0;
    assert s0[low..low] == [];
    while j < high
      invariant Scanning(Loop(a[..], i, moved), s0, low, j, high)
      invariant Tracked(a[..], arr, steps, comparisons, swaps)
      invariant comparisons == comparisons0 + (j - low) && swaps == swaps0 + moved
    {
      i, moved, steps, comparisons, swaps := Iterate(a, i, j, high, s0, low, moved, arr, steps, comparisons, swaps);
      j := j + 1;
    }
  }

  /** The exchange of a[i + 1] with the pivot after the loop, made and
      counted even when the two are the same cell. */
  method PlacePivot(a: array<int>, b: int, high: int, ghost arr: seq<int>, steps0: seq<Step>, comparisons: nat, swaps0: nat)
    returns (steps: seq<Step>, swaps: nat)
    requires 0 <= b <= high < a.Length
    requires Tracked(a[..], arr, steps0, comparisons, swaps0)
    modifies a
    ensures a[..] == Swap(old(a[..]), b, high)
    ensures Tracked(a[..], arr, steps, comparisons, swaps) && swaps == swaps0 + 1
  {
    ghost var before := a[..];
    var t := a[b];
    a[b] := a[high];
    a[high] := t;
    assert a[..] == Swap(before, b, high);
    Exchanged(before, arr, steps0, comparisons, swaps0, b, high, Step(a[..], swapping := [b, high]));
    steps, swaps := Push(steps0, Step(a[..], swapping := [b, high])), swaps0 + 1;
  }

  /** The state st of the `for j` loop of partition at j, with st.end
      standing for i + 1: a[low..i] is below the pivot s0[high], a[i+1..j) is
      not, the cells from j on and outside the range are as they were,
      st.end - low counts the smaller elements seen, and the rest of the loop
      ends where the reference loop from the start of partition ends. */
  ghost predicate Scanning(st: Loop, s0: seq<int>, low: int, j: int, high: int)
  {
    && 0 <= low <= st.end <= j <= high < |st.arr| == |s0|
    && (forall k :: low <= k < st.end ==> st.arr[k] < s0[high])
    && (forall k :: st.end <= k < j ==> s0[high] <= st.arr[k])
    && (forall k :: 0 <= k < |st.arr| && !(low <= k < j) ==> st.arr[k] == s0[k])
    && st.end - low == Smaller(s0[high], s0[low..j])
    && LomutoLoop(st, j, high) == LomutoLoop(Loop(s0, low, 0), low, high)
  }

  /** One iteration of the `for j` loop, with the loop state it leaves. */
  method Iterate(a: array<int>, b0: int, j: int, high: int, ghost s0: seq<int>, ghost low: int, ghost moved: nat,
      ghost arr: seq<int>, steps0: seq<Step>, comparisons0: nat, swaps0: nat)
    returns (b: int, ghost moved': nat, steps: seq<Step>, comparisons: nat, swaps: nat)
    requires j < high && Scanning(Loop(a[..], b0, moved), s0, low, j, high)
    requires Tracked(a[..], arr, steps0, comparisons0, swaps0)
    modifies a
    ensures Scanning(Loop(a[..], b, moved'), s0, low, j + 1, high) && swaps - swaps0 == moved' - moved
    ensures Tracked(a[..], arr, steps, comparisons, swaps)
    ensures comparisons == comparisons0 + 1
  {
    ghost var st := Loop(a[..], b0, moved);
    b, steps, comparisons, swaps := Visit(a, b0, j, high, moved, arr, steps0, comparisons0, swaps0);
    moved' := moved + (swaps - swaps0);
    LomutoStep(st, Loop(a[..], b, moved'), s0, low, j, high);
  }

  /** One iteration of the `for j` loop: count and record the comparison of
      a[j] with the pivot, and if a[j] is smaller, grow the smaller block,
      exchanging (and counting and recording) only when i + 1 != j. */
  method Visit(a: array<int>, b0: int, j: int, high: int, ghost moved: nat, ghost arr: seq<int>, steps0: seq<Step>, comparisons0: nat, swaps0: nat)
    returns (b: int, steps: seq<Step>, comparisons: nat, swaps: nat)
    requires 0 <= b0 <= j < high < a.Length
    requires Tracked(a[..], arr, steps0, comparisons0, swaps0)
    modifies a
    ensures swaps0 <= swaps && Advanced(Loop(old(a[..]), b0, moved), j, high) == Loop(a[..], b, moved + (swaps - swaps0))
    ensures Tracked(a[..], arr, steps, comparisons, swaps)
    ensures comparisons == comparisons0 + 1
  {
    var look := Step(a[..], comparing := [j, high], pivot := Some(high));
    Noted(a[..], arr, steps0, comparisons0, swaps0, look);
    steps, comparisons, swaps := Push(steps0, look), comparisons0 + 1, swaps0;
    b := b0;
    if a[j] < a[high] {
      if b != j {
        ghost var before := a[..];
        a[b], a[j] := a[j], a[b];
        assert a[..] == Swap(before, b, j);
        Exchanged(before, arr, steps, comparisons, swaps, b, j, Step(a[..], swapping := [b, j], pivot := Some(high)));
        steps, swaps := Push(steps, Step(a[..], swapping := [b, j], pivot := Some(high))), swaps + 1;
      } else {
        assert a[..] == a[..][j := a[j]][j := a[j]];
      }
      b := b + 1;
    }
  }

  /** How one loop iteration advances the partition state. */
  lemma LomutoStep(st: Loop, next: Loop, s0: seq<int>, low: int, j: int, high: int)
    requires Scanning(st, s0, low, j, high) && j < high && next == Advanced(st, j, high)
    ensures Scanning(next, s0, low, j + 1, high)
  {
    var x := s0[high];
    assert s0[low..j + 1] == s0[low..j] + [s0[j]];
    SmallerAppended(x, s0[low..j], s0[j]);
    LoopAdvanced(st, next, j, high);
  }

  /** The final exchange puts the pivot between the two blocks, and the
      result is the reference partition. */
  lemma PivotPlaced(st: Loop, s0: seq<int>, low: int, high: int)
    requires Scanning(st, s0, low, high, high)
    ensures Split(Swap(st.arr, st.end, high), low, st.end, high) && Kept(s0, Swap(st.arr, st.end, high), low, high)
    ensures Swap(st.arr, st.end, high)[st.end] == s0[high]
    ensures Partitioned(s0, low, high) == Loop(Swap(st.arr, st.end, high), st.end, st.moved)
  {
    LoopFinished(s0, st, low, high);
  }

  // ---- the reference recursion, on values ----

  /** The reference partition loop, run on from a scanning state, ends in a
      scanning state at high and only permutes the array. */
  lemma {:induction false} LoopScans(st: Loop, s0: seq<int>, low: int, j: int, high: int)
    requires Scanning(st, s0, low, j, high) && multiset(st.arr) == multiset(s0)
    ensures Scanning(LomutoLoop(st, j, high), s0, low, high, high)
    ensures multiset(LomutoLoop(st, j, high).arr) == multiset(s0)
    decreases high - j
  {
    if j < high {
      var next := Advanced(st, j, high);
      LomutoStep(st, next, s0, low, j, high);
      AdvancedPermutes(st, j, high);
      LoopScans(next, s0, low, j + 1, high);
      LoopAdvanced(st, next, j, high);
    }
  }

  /** One step of the partition loop swaps two cells or changes nothing. */
  lemma AdvancedPermutes(st: Loop, j: int, high: int)
    requires 0 <= st.end <= j < high < |st.arr|
    ensures multiset(Advanced(st, j, high).arr) == multiset(st.arr)
  {
    if st.arr[j] < st.arr[high] {
      assert Advanced(st, j, high).arr == Swap(st.arr, st.end, j);
    }
  }

  /** `partition(low, high)` on values: the pivot s[high] lands at the
      returned index, which is low plus the number of smaller elements in
      s[low..high), with the smaller elements before it and the rest after;
      the array is only permuted, within [low, high]. */
  lemma PartitionedSplits(s: seq<int>, low: int, high: int)
    requires 0 <= low <= high < |s|
    ensures var p := Partitioned(s, low, high);
      && Split(p.arr, low, p.end, high) && p.arr[p.end] == s[high]
      && Kept(s, p.arr, low, high) && multiset(p.arr) == multiset(s)
      && p.end - low == Smaller(s[high], s[low..high])
  {
    var st := Loop(s, low, 0);
    assert s[low..low] == [];
    assert Scanning(st, s, low, low, high);
    LoopScans(st, s, low, low, high);
    PivotPlaced(LomutoLoop(st, low, high), s, low, high);
  }

  /** t is s with [low, high] sorted in place: a permutation of s, sorted
      on the range and equal to s outside it. */
  ghost predicate SortsRange(s: seq<int>, t: seq<int>, low: int, high: int)
  {
    && 0 <= low <= high + 1 <= |t|
    && SortedBetween(t, low, high + 1) && Kept(s, t, low, high) && multiset(t) == multiset(s)
  }

  /** `quickSortHelper(low, high)` on values sorts [low, high], permutes the
      array and leaves everything outside the range as it was. */
  lemma {:induction false} QuickRunSorts(s: seq<int>, low: int, high: int)
    requires 0 <= low <= high + 1 <= |s|
    ensures SortsRange(s, QuickRun(s, low, high).arr, low, high)
    decreases high - low
  {
    if low < high {
      var split := Partitioned(s, low, high);
      var l := QuickRun(split.arr, low, split.end - 1);
      QuickRunSorts(split.arr, low, split.end - 1);
      var r := QuickRun(l.arr, split.end + 1, high);
      QuickRunSorts(l.arr, split.end + 1, high);
      SidesSorted(s, split, l, r, low, high);
    } else {
      assert QuickRun(s, low, high).arr == s;
    }
  }

  /** One level of `quickSortHelper`: when both recursive calls sort their
      sides, the call sorts its whole range. */
  lemma SidesSorted(s: seq<int>, split: Loop, l: Outcome, r: Outcome, low: int, high: int)
    requires 0 <= low < high < |s| && split == Partitioned(s, low, high)
    requires l == QuickRun(split.arr, low, split.end - 1) && r == QuickRun(l.arr, split.end + 1, high)
    requires SortsRange(split.arr, l.arr, low, split.end - 1) && SortsRange(l.arr, r.arr, split.end + 1, high)
    ensures SortsRange(s, QuickRun(s, low, high).arr, low, high)
  {
    PartitionedSplits(s, low, high);
    QuickRunUnfolded(s, split, l, r, low, high);
    Conquers(s, split.arr, l.arr, r.arr, low, split.end, high);
  }

  /** Partitioning and then sorting the part below the pivot and the part
      above it sorts the whole range and permutes the array. */
  lemma Conquers(s0: seq<int>, s: seq<int>, l: seq<int>, r: seq<int>, low: int, p: int, high: int)
    requires 0 <= low <= p <= high < |s| && Split(s, low, p, high)
    requires Kept(s0, s, low, high) && multiset(s) == multiset(s0)
    requires SortsRange(s, l, low, p - 1) && SortsRange(l, r, p + 1, high)
    ensures SortsRange(s0, r, low, high)
  {
    SortedSides(s0, s, l, r, low, p, high);
  }

  /** The whole reference quick sort returns its input sorted. */
  lemma QuickRunSorted(s: seq<int>)
    ensures Sorted(QuickRun(s, 0, |s| - 1).arr)
    ensures multiset(QuickRun(s, 0, |s| - 1).arr) == multiset(s)
  {
    QuickRunSorts(s, 0, |s| - 1);
    assert SortsRange(s, QuickRun(s, 0, |s| - 1).arr, 0, |s| - 1);
  }
}
