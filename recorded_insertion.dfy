/** `insertionSort` of src/utils/sortingAlgorithms.ts: round i lifts out
    key = a[i] and shifts the larger elements of the sorted prefix one place
    right, recording each shift, then drops the key into the gap. While the key
    is lifted out the array holds a duplicate, so the shift snapshots are not
    permutations of the input. */
module RecordedInsertion {
  import opened Ordering
  import opened SortSteps

  /** The bookkeeping between rounds, about the array `l` as it would be with
      the key put back: it is a permutation of the input; each shift so far
      removed one inversion; and once a shift has happened, some snapshot has
      been recorded that is not a permutation of the input. */
  ghost predicate Progress(l: seq<int>, arr: seq<int>, steps: seq<Step>, swaps: nat)
  {
    && Logged(arr, steps, swaps)
    && |l| == |arr| && multiset(l) == multiset(arr)
    && swaps + Inversions(l) == Inversions(arr)
    && (swaps > 0 ==> !SnapshotsPermute(steps, multiset(arr)))
  }

  method InsertionSort(arr: seq<int>) returns (r: SortResult)
    ensures Recorded(arr, r)
    ensures Last(r.steps).sorted == Range(0, if |arr| == 0 then 1 else |arr|)
    ensures |arr| <= 1 ==> |r.steps| == 1
    ensures r.swaps == Inversions(arr)
    ensures CountComparing(r.steps) == r.swaps + (if |arr| == 0 then 0 else |arr| - 1)
    ensures r.swaps <= r.comparisons
    ensures r.comparisons <= r.swaps + (if |arr| == 0 then 0 else |arr| - 1)
    ensures r.comparisons + Drops(arr) == Inversions(arr) + (if |arr| == 0 then 0 else |arr| - 1)
    ensures Sorted(arr) ==> r.swaps == 0 && r.comparisons == (if |arr| == 0 then 0 else |arr| - 1)
    ensures !Sorted(arr) ==> !SnapshotsPermute(r.steps, multiset(arr))
  {
    var a := new int[|arr|](k requires 0 <= k < |arr| => arr[k]);
    assert a[..] == arr;
    var steps, comparisons, swaps := Rounds(a, arr);
    r := SortResult(steps, comparisons, swaps);
    AllInserted(a[..], arr, steps, swaps);
    if Sorted(arr) {
      SortedNoInversions(arr);
    } else {
      UnsortedInversions(arr);
    }
  }

  /** The outer `for i` loop, starting from the step that marks index 0 as
      sorted (even when the array is empty). */
  method Rounds(a: array<int>, ghost arr: seq<int>) returns (steps: seq<Step>, comparisons: nat, swaps: nat)
    requires a[..] == arr
    modifies a
    ensures Inserting(a[..], if a.Length == 0 then 1 else a.Length, arr, steps, swaps)
    ensures swaps <= comparisons <= swaps + (if a.Length == 0 then 0 else a.Length - 1)
    ensures swaps == 0 ==> comparisons == (if a.Length == 0 then 0 else a.Length - 1)
    ensures comparisons + Drops(arr) == swaps + (if a.Length == 0 then 0 else a.Length - 1)
  {
    var n := a.Length;
    var sorted := [0];
    steps := [Step(a[..], sorted := [0])];
    Started(arr, Step(a[..], sorted := [0]));
    comparisons, swaps := 0, 0;
    ghost var drops := 0;
    var i := 1;
    while i < n
      invariant Inserting(a[..], i, arr, steps, swaps)
      invariant sorted == Range(0, i)
      invariant Tally(comparisons, swaps, drops, i)
      invariant n > 0 ==> a[i..] == arr[i..]
      invariant drops == DropsTo(arr, if n == 0 then 0 else i)
    {
      ghost var before := a[..];
      steps, comparisons, swaps, drops := Round(a, i, sorted, arr, steps, comparisons, swaps, drops);
      BelowAllPermuted(before, arr, i);
      assert a[i + 1..] == before[i + 1..] == before[i..][1..] == arr[i + 1..];
      RangeExtended(0, i);
      sorted := sorted + [i];
      i := i + 1;
    }
  }

  /** The state before round i: the prefix a[0..i) is sorted and was
      recorded as such, and each round so far recorded one `comparing` step
      of its own besides the one of each shift. */
  ghost predicate Inserting(a: seq<int>, i: nat, arr: seq<int>, steps: seq<Step>, swaps: nat)
  {
    && 1 <= i <= (if |a| == 0 then 1 else |a|)
    && Progress(a, arr, steps, swaps)
    && SortedBetween(a, 0, if |a| == 0 then 0 else i)
    && Last(steps).snapshot == a && Last(steps).sorted == Range(0, i)
    && (|a| <= 1 ==> |steps| == 1)
    && CountComparing(steps) == swaps + (i - 1)
  }

  /** The counters after i-1 rounds, `drops` of which shifted the key all the
      way to the front: each round counts one comparison per shift plus the
      final `array[j] > key` test unless it dropped, and a round drops only
      after at least one shift. */
  ghost predicate Tally(comparisons: nat, swaps: nat, drops: nat, i: nat)
  {
    comparisons + drops == swaps + (i - 1) && drops <= swaps && drops <= i - 1
  }

  /** One round of the outer loop. When the shifting runs off the front of
      the array (j = -1) the final `array[j] > key` test is not evaluated and
      so not counted; `drops` counts those rounds. */
  method Round(a: array<int>, i: nat, sorted: seq<int>, ghost arr: seq<int>, steps0: seq<Step>, comparisons0: nat, swaps0: nat, ghost drops0: nat)
    returns (steps: seq<Step>, comparisons: nat, swaps: nat, ghost drops: nat)
    requires i < a.Length && Inserting(a[..], i, arr, steps0, swaps0)
    requires sorted == Range(0, i) && Tally(comparisons0, swaps0, drops0, i)
    modifies a
    ensures Inserting(a[..], i + 1, arr, steps, swaps)
    ensures Tally(comparisons, swaps, drops, i + 1)
    ensures a[i + 1..] == old(a[i + 1..])
    ensures drops == drops0 + (if BelowAll(old(a[..]), i) then 1 else 0)
  {
    ghost var a1 := a[..];
    var key := a[i];
    var look := Step(a[..], comparing := [i], sorted := sorted);
    Appended(arr, steps0, swaps0, look);
    steps := Push(steps0, look);
    var j;
    j, steps, comparisons, swaps := Sink(a, i, key, sorted, arr, steps, comparisons0, swaps0);
    drops := drops0;
    if j >= 0 {
      comparisons := comparisons + 1;
    } else {
      drops := drops + 1;
    }
    DropDecided(a1, a[..], j, i, key);
    ghost var l := Lifted(a[..], j, key);
    a[j + 1] := key;
    assert a[..] == l;
    Settled(l, j, i, key);
    RangeExtended(0, i);
    var done := Step(a[..], sorted := sorted + [i]);
    Appended(arr, steps, swaps, done);
    if swaps > 0 {
      StillMixed(steps, done, multiset(arr));
    }
    steps := Push(steps, done);
  }

  /** The array as it would be with the key put back into the gap at j+1. */
  function Lifted(a: seq<int>, j: int, key: int): (l: seq<int>)
    requires -1 <= j < |a| - 1
    ensures |l| == |a| && l[j + 1] == key
    ensures forall k :: 0 <= k < |a| && k != j + 1 ==> l[k] == a[k]
  {
    a[j + 1 := key]
  }

  /** The state of round i with the gap at j+1. */
  ghost predicate Sinking(a: seq<int>, j: int, i: nat, key: int, arr: seq<int>, steps: seq<Step>, swaps: nat)
  {
    -1 <= j < i < |a| && Progress(Lifted(a, j, key), arr, steps, swaps) && Gap(Lifted(a, j, key), j, i, key)
  }

  /** The inner `while (j >= 0 && array[j] > key)` loop. Each shift moves the
      gap one place left, which exchanges the key with its left neighbour in
      the lifted array. */
  method Sink(a: array<int>, i: nat, key: int, sorted: seq<int>, ghost arr: seq<int>, steps0: seq<Step>, comparisons0: nat, swaps0: nat)
    returns (j: int, steps: seq<Step>, comparisons: nat, swaps: nat)
    requires i < a.Length && a[i] == key
    requires Progress(a[..], arr, steps0, swaps0) && SortedBetween(a[..], 0, i)
    modifies a
    ensures Sinking(a[..], j, i, key, arr, steps, swaps)
    ensures j >= 0 ==> a[j] <= key
    ensures swaps == swaps0 + (i - 1 - j)
    ensures comparisons == comparisons0 + (swaps - swaps0)
    ensures CountComparing(steps) == CountComparing(steps0) + (swaps - swaps0)
    ensures Shifted(old(a[..]), a[..], j, i)
  {
    j := i - 1;
    steps, comparisons, swaps := steps0, comparisons0, swaps0;
    assert Lifted(a[..], j, key) == a[..];
    while j >= 0 && a[j] > key
      invariant Sinking(a[..], j, i, key, arr, steps, swaps)
      invariant swaps == swaps0 + (i - 1 - j)
      invariant comparisons == comparisons0 + (swaps - swaps0)
      invariant CountComparing(steps) == CountComparing(steps0) + (swaps - swaps0)
      invariant Shifted(old(a[..]), a[..], j, i)
    {
      ghost var before := a[..];
      steps, comparisons, swaps := Shift(a, i, j, key, sorted, arr, steps, comparisons, swaps);
      ShiftedMore(old(a[..]), before, j, i);
      j := j - 1;
    }
  }

  /** One iteration of the shifting loop: count and record the comparison,
      then copy a[j] into a[j+1] and count and record that as a swap. */
  method Shift(a: array<int>, i: nat, j: nat, key: int, sorted: seq<int>, ghost arr: seq<int>, steps0: seq<Step>, comparisons0: nat, swaps0: nat)
    returns (steps: seq<Step>, comparisons: nat, swaps: nat)
    requires Sinking(a[..], j, i, key, arr, steps0, swaps0) && a[j] > key
    modifies a
    ensures a[..] == old(a[..])[j + 1 := old(a[j])]
    ensures Sinking(a[..], j - 1, i, key, arr, steps, swaps)
    ensures comparisons == comparisons0 + 1 && swaps == swaps0 + 1
    ensures CountComparing(steps) == CountComparing(steps0) + 1
  {
    comparisons := comparisons0 + 1;
    var look := Step(a[..], comparing := [j, j + 1], sorted := sorted);
    Appended(arr, steps0, swaps0, look);
    steps := Push(steps0, look);
    ghost var before := a[..];
    a[j + 1] := a[j];
    var moved := Step(a[..], swapping := [j, j + 1], sorted := sorted);
    ShiftRecorded(before, j, key, arr, steps, swaps0, moved);
    ShiftedGap(before, j, i, key);
    swaps := swaps0 + 1;
    steps := Push(steps, moved);
  }

  /** Recording the shift snapshot keeps the bookkeeping for the lifted array
      with the gap one place left; the snapshot itself holds a[j] twice and
      lacks the key, so it is not a permutation of the input. */
  lemma ShiftRecorded(a: seq<int>, j: nat, key: int, arr: seq<int>, steps: seq<Step>, swaps: nat, t: Step)
    requires j + 1 < |a| && a[j] > key
    requires Progress(Lifted(a, j, key), arr, steps, swaps)
    requires t.snapshot == a[j + 1 := a[j]] && t.swapping != []
    ensures Progress(Lifted(a[j + 1 := a[j]], j - 1, key), arr, Push(steps, t), swaps + 1)
  {
    var l := Lifted(a, j, key);
    GapMoved(a, j, key);
    Appended(arr, steps, swaps, t);
    InversionsSwapped(l, j);
    Overwritten(a, j, key);
    assert (steps + [t])[|steps|] == t;
  }

  /** Moving the gap left is an exchange in the lifted array. */
  lemma GapMoved(a: seq<int>, j: nat, key: int)
    requires j + 1 < |a|
    ensures Lifted(a[j + 1 := a[j]], j - 1, key) == Swap(Lifted(a, j, key), j, j + 1)
  {
  }

  /** The shift snapshot, holding a[j] where the lifted array holds the key,
      is not a permutation of the lifted array. */
  lemma Overwritten(a: seq<int>, j: nat, key: int)
    requires j + 1 < |a| && a[j] != key
    ensures multiset(a[j + 1 := a[j]]) != multiset(Lifted(a, j, key))
  {
    var m := multiset(a) - multiset{a[j + 1]};
    assert multiset(a[j + 1 := a[j]]) == m + multiset{a[j]};
    assert multiset(Lifted(a, j, key)) == m + multiset{key};
    assert (m + multiset{a[j]})[key] < (m + multiset{key})[key];
  }

  /** The order facts inside round i with the gap at j+1 (key there in `l`):
      l[0..i] without the gap is sorted, and everything right of the gap is
      greater than the key. */
  predicate Gap(l: seq<int>, j: int, i: nat, key: int)
  {
    && -1 <= j < i < |l| && l[j + 1] == key
    && (forall k, m :: 0 <= k < m <= i && k != j + 1 && m != j + 1 ==> l[k] <= l[m])
    && (forall m :: j + 1 < m <= i ==> key < l[m])
  }

  lemma ShiftedGap(a: seq<int>, j: nat, i: nat, key: int)
    requires j + 1 < |a| && Gap(Lifted(a, j, key), j, i, key) && a[j] > key
    ensures Gap(Lifted(a[j + 1 := a[j]], j - 1, key), j - 1, i, key)
  {
    GapMoved(a, j, key);
  }

  /** When the shifting stops, the prefix l[0..i] is sorted. */
  lemma Settled(l: seq<int>, j: int, i: nat, key: int)
    requires Gap(l, j, i, key) && (j >= 0 ==> l[j] <= key)
    ensures SortedBetween(l, 0, i + 1)
  {
    forall k, m | 0 <= k < m <= i ensures l[k] <= l[m] {
      if m == j + 1 && k < j {
        assert l[k] <= l[j];
      }
    }
  }

  /** t is s with the elements s[j+1..i-1] moved one place up and everything
      else where it was (t[j+1] still holds its old value). */
  ghost predicate Shifted(s: seq<int>, t: seq<int>, j: int, i: nat)
  {
    && -1 <= j < i < |s| == |t|
    && (forall k :: 0 <= k <= j ==> t[k] == s[k])
    && (forall k :: j < k < i ==> t[k + 1] == s[k])
    && (forall k :: i < k < |s| ==> t[k] == s[k])
  }

  lemma ShiftedMore(s: seq<int>, t: seq<int>, j: nat, i: nat)
    requires Shifted(s, t, j, i)
    ensures Shifted(s, t[j + 1 := t[j]], j - 1, i)
  {
  }

  /** A round drops exactly when its key is below everything before it: s is
      the array when the round starts, t the array when the shifting stops
      with the gap at j+1, everything left of the gap unmoved and everything
      right of it moved one place up. */
  lemma DropDecided(s: seq<int>, t: seq<int>, j: int, i: nat, key: int)
    requires Shifted(s, t, j, i) && s[i] == key
    requires Gap(Lifted(t, j, key), j, i, key)
    requires j >= 0 ==> t[j] <= key
    ensures j < 0 <==> BelowAll(s, i)
    ensures Lifted(t, j, key)[i + 1..] == s[i + 1..]
  {
    if j < 0 {
      forall k | 0 <= k < i ensures key < s[k] {
        assert Lifted(t, j, key)[k + 1] == t[k + 1];
      }
    }
  }

  /** After the last round the whole array is the sorted prefix. */
  lemma AllInserted(a: seq<int>, arr: seq<int>, steps: seq<Step>, swaps: nat)
    requires Inserting(a, if |a| == 0 then 1 else |a|, arr, steps, swaps)
    ensures Sorted(a) && Last(steps).snapshot == a
    ensures Recorded(arr, SortResult(steps, 0, swaps))
    ensures swaps == Inversions(arr)
  {
    SortedNoInversions(a);
  }
}
