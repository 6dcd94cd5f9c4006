/** The recorded engines' output: a `Step` is one frozen snapshot of the working
    array with the indices highlighted at that instant, and a `SortResult` is the
    whole step list with the final counters. */
module SortSteps {
  import opened Ordering

  datatype Option<T> = None | Some(value: T)

  /** One recorded instant. An absent `comparing`/`swapping`/`sorted` list is the
      empty list (the engines never record an explicit empty `comparing` or
      `swapping` list), and an absent pivot is `None`. */
  datatype Step = Step(
    snapshot: seq<int>,
    comparing: seq<int> := [],
    swapping: seq<int> := [],
    sorted: seq<int> := [],
    pivot: Option<int> := None)

  /** What every engine returns; the wall-clock `executionTime` is not modelled. */
  datatype SortResult = SortResult(steps: seq<Step>, comparisons: nat, swaps: nat)

  function Last(steps: seq<Step>): Step
    requires steps != []
  {
    steps[|steps| - 1]
  }

  /** The indices lo, lo+1, ..., hi-1 (what `array.map((_, i) => i)` gives for lo = 0). */
  function Range(lo: int, hi: int): (r: seq<int>)
    ensures |r| == if lo <= hi then hi - lo else 0
    ensures forall k :: 0 <= k < |r| ==> r[k] == lo + k
    decreases hi - lo
  {
    if lo >= hi then [] else [lo] + Range(lo + 1, hi)
  }

  /** Pushing hi onto 0..hi-1 (what `sorted.push(i)` does) gives 0..hi. */
  lemma {:induction false} RangeExtended(lo: int, hi: int)
    requires lo <= hi
    ensures Range(lo, hi) + [hi] == Range(lo, hi + 1)
    decreases hi - lo
  {
    if lo < hi {
      RangeExtended(lo + 1, hi);
      assert Range(lo, hi) + [hi] == [lo] + (Range(lo + 1, hi) + [hi]);
    }
  }

  /** The indices top, top-1, ..., top-len+1 (the trailing block marked sorted by
      bubble sort and heap sort). */
  function Countdown(top: int, len: nat): (r: seq<int>)
    ensures |r| == len
    ensures forall k :: 0 <= k < len ==> r[k] == top - k
    decreases len
  {
    if len == 0 then [] else [top] + Countdown(top - 1, len - 1)
  }

  /** Steps whose `comparing` tag is present. */
  function CountComparing(steps: seq<Step>): nat
  {
    if steps == [] then 0
    else CountComparing(steps[..|steps| - 1]) + (if Last(steps).comparing != [] then 1 else 0)
  }

  /** Steps whose `swapping` tag is present. */
  function CountSwapping(steps: seq<Step>): nat
  {
    if steps == [] then 0
    else CountSwapping(steps[..|steps| - 1]) + (if Last(steps).swapping != [] then 1 else 0)
  }

  /** `steps.push(t)`, with what it does to the two tag counts. */
  function Push(steps: seq<Step>, t: Step): (r: seq<Step>)
    ensures r == steps + [t]
    ensures CountComparing(r) == CountComparing(steps) + (if t.comparing != [] then 1 else 0)
    ensures CountSwapping(r) == CountSwapping(steps) + (if t.swapping != [] then 1 else 0)
  {
    var r := steps + [t];
    assert r[..|r| - 1] == steps;
    r
  }

  /** Every snapshot has the input's length. */
  predicate SnapshotsOfSize(steps: seq<Step>, n: nat)
  {
    forall k :: 0 <= k < |steps| ==> |steps[k].snapshot| == n
  }

  /** Every snapshot is a permutation of the multiset m. */
  predicate SnapshotsPermute(steps: seq<Step>, m: multiset<int>)
  {
    forall k :: 0 <= k < |steps| ==> multiset(steps[k].snapshot) == m
  }

  /** Appending a permutation of m keeps every snapshot a permutation of m. */
  lemma Extended(steps: seq<Step>, t: Step, m: multiset<int>)
    requires SnapshotsPermute(steps, m) && multiset(t.snapshot) == m
    ensures SnapshotsPermute(steps + [t], m)
  {
    forall k | 0 <= k < |steps| + 1
      ensures multiset((steps + [t])[k].snapshot) == m
    {
      if k < |steps| {
        assert (steps + [t])[k] == steps[k];
      }
    }
  }

  /** Permutations of a multiset of size n all have length n. */
  lemma PermuteSized(steps: seq<Step>, m: multiset<int>, n: nat)
    requires SnapshotsPermute(steps, m) && |m| == n
    ensures SnapshotsOfSize(steps, n)
  {
    forall k | 0 <= k < |steps| ensures |steps[k].snapshot| == n {
      assert |multiset(steps[k].snapshot)| == |steps[k].snapshot|;
    }
  }

  /** The bookkeeping of an engine that only ever exchanges elements: the
      work array `a` and every snapshot so far are permutations of the input,
      the first snapshot is the input, and each counter equals the number of
      steps carrying its tag. */
  ghost predicate Tracked(a: seq<int>, input: seq<int>, steps: seq<Step>, comparisons: nat, swaps: nat)
  {
    && |a| == |input| && multiset(a) == multiset(input)
    && steps != [] && steps[0].snapshot == input
    && SnapshotsPermute(steps, multiset(input))
    && comparisons == CountComparing(steps)
    && swaps == CountSwapping(steps)
  }

  /** The bookkeeping when the engine starts: one untagged step holding the input. */
  lemma Started(input: seq<int>, t: Step)
    requires t.snapshot == input && t.comparing == [] && t.swapping == []
    ensures Tracked(input, input, [t], 0, 0) && Logged(input, [t], 0)
  {
    assert [t][..0] == [];
  }

  /** Recording a snapshot of an unchanged work array keeps the bookkeeping;
      the comparison counter moves with the step's `comparing` tag. */
  lemma Noted(a: seq<int>, input: seq<int>, steps: seq<Step>, comparisons: nat, swaps: nat, t: Step)
    requires Tracked(a, input, steps, comparisons, swaps)
    requires t.snapshot == a && t.swapping == []
    ensures Tracked(a, input, Push(steps, t), comparisons + (if t.comparing != [] then 1 else 0), swaps)
  {
    Extended(steps, t, multiset(input));
  }

  /** Exchanging two cells and recording the result with a `swapping` tag
      keeps the bookkeeping with one more swap. */
  lemma Exchanged(a: seq<int>, input: seq<int>, steps: seq<Step>, comparisons: nat, swaps: nat, i: nat, j: nat, t: Step)
    requires Tracked(a, input, steps, comparisons, swaps)
    requires i < |a| && j < |a|
    requires t.snapshot == Swap(a, i, j) && t.comparing == [] && t.swapping != []
    ensures Tracked(Swap(a, i, j), input, Push(steps, t), comparisons, swaps + 1)
  {
    Extended(steps, t, multiset(input));
  }

  /** A sorted work array recorded as the last step completes the shared contract. */
  lemma Concluded(a: seq<int>, input: seq<int>, steps: seq<Step>, comparisons: nat, swaps: nat)
    requires Tracked(a, input, steps, comparisons, swaps)
    requires Sorted(a) && Last(steps).snapshot == a
    ensures Recorded(input, SortResult(steps, comparisons, swaps))
  {
    PermuteSized(steps, multiset(input), |input|);
  }

  /** The bookkeeping of an engine that also overwrites cells (insertion's
      shift, merge's copy-back): the first snapshot is the input, every snapshot
      has the input's length, and the swap counter equals the number of steps
      tagged `swapping`. */
  ghost predicate Logged(input: seq<int>, steps: seq<Step>, swaps: nat)
  {
    && steps != [] && steps[0].snapshot == input
    && SnapshotsOfSize(steps, |input|)
    && swaps == CountSwapping(steps)
  }

  /** Appending a snapshot of the input's length keeps the log, the swap
      counter moving with the step's `swapping` tag. */
  lemma Appended(input: seq<int>, steps: seq<Step>, swaps: nat, t: Step)
    requires Logged(input, steps, swaps) && |t.snapshot| == |input|
    ensures Logged(input, Push(steps, t), swaps + (if t.swapping != [] then 1 else 0))
  {
    var r := steps + [t];
    forall k | 0 <= k < |r| ensures |r[k].snapshot| == |input| {
      if k < |steps| {
        assert r[k] == steps[k];
      }
    }
  }

  /** Once some snapshot is not a permutation of m, none appended later can
      repair that. */
  lemma StillMixed(steps: seq<Step>, t: Step, m: multiset<int>)
    requires !SnapshotsPermute(steps, m)
    ensures !SnapshotsPermute(steps + [t], m)
  {
    var k :| 0 <= k < |steps| && multiset(steps[k].snapshot) != m;
    assert (steps + [t])[k] == steps[k];
  }

  /** The contract shared by all six recorded engines: the first snapshot is the
      input, the last one is the input sorted, every snapshot has the input's
      length, and the swap counter equals the number of `swapping` steps. */
  predicate Recorded(input: seq<int>, r: SortResult)
  {
    && r.steps != []
    && r.steps[0].snapshot == input
    && Sorted(Last(r.steps).snapshot)
    && multiset(Last(r.steps).snapshot) == multiset(input)
    && SnapshotsOfSize(r.steps, |input|)
    && r.swaps == CountSwapping(r.steps)
  }
}
