/** The Lomuto quick sort shared by both engine variants, as functions on
    values: the partition loop, the partition, and the whole recursion with
    what each variant counts. The recorded engine exchanges a smaller element
    only when it is not already in place; the streaming one always does (an
    exchange of a cell with itself), so both leave the same array. */
module Lomuto {
  import opened Ordering

  /** The state of the `for j` loop of partition: the array, the end of the
      block of smaller elements (the source's i + 1), and the exchanges the
      recorded engine has made so far. */
  datatype Loop = Loop(arr: seq<int>, end: int, moved: nat)

  /** One iteration of the loop at j: a smaller a[j] is exchanged to the end
      of the block (an exchange of a cell with itself when end == j, which the
      recorded engine skips) and the block grows. */
  function Advanced(st: Loop, j: int, high: int): (r: Loop)
    requires 0 <= st.end <= j < high < |st.arr|
    ensures |r.arr| == |st.arr| && r.arr[high] == st.arr[high]
  {
    if st.arr[j] < st.arr[high] then
      Loop(st.arr[st.end := st.arr[j]][j := st.arr[st.end]], st.end + 1, if st.end != j then st.moved + 1 else st.moved)
    else st
  }

  /** The loop from position j on. */
  function LomutoLoop(st: Loop, j: int, high: int): (r: Loop)
    requires 0 <= st.end <= j <= high < |st.arr|
    ensures |r.arr| == |st.arr| && st.end <= r.end <= high
    decreases high - j, 0
  {
    if j == high then st else LoopFrom(Advanced(st, j, high), j + 1, high)
  }

  /** The loop after the iteration at j - 1. */
  function LoopFrom(st: Loop, j: int, high: int): (r: Loop)
    requires 0 <= st.end <= j <= high < |st.arr|
    ensures |r.arr| == |st.arr| && st.end <= r.end <= high
    decreases high - j, 1
  {
    LomutoLoop(st, j, high)
  }

  /** The loop state after one more iteration leads to the same end. */
  lemma LoopAdvanced(st: Loop, next: Loop, j: int, high: int)
    requires 0 <= st.end <= j < high < |st.arr| && next == Advanced(st, j, high)
    ensures LomutoLoop(next, j + 1, high) == LomutoLoop(st, j, high)
  {
  }

  /** `partition(low, high)`: the loop from the empty block at low, then the
      exchange that puts the pivot at the returned index `end`. */
  function Partitioned(s: seq<int>, low: int, high: int): (r: Loop)
    requires 0 <= low <= high < |s|
    ensures |r.arr| == |s| && low <= r.end <= high
  {
    var e := LomutoLoop(Loop(s, low, 0), low, high);
    Loop(e.arr[e.end := e.arr[high]][high := e.arr[e.end]], e.end, e.moved)
  }

  /** A loop state at j == high that leads to the same end as the start of
      partition, followed by the pivot exchange, is the partition. */
  lemma LoopFinished(s0: seq<int>, st: Loop, low: int, high: int)
    requires 0 <= low <= high < |s0| && 0 <= st.end <= high < |st.arr|
    requires LomutoLoop(st, high, high) == LomutoLoop(Loop(s0, low, 0), low, high)
    ensures Partitioned(s0, low, high) == Loop(Swap(st.arr, st.end, high), st.end, st.moved)
  {
  }

  /** The loop never makes more exchanges than the smaller elements it
      places: the gap end - moved only grows. */
  lemma {:induction false} GapKept(st: Loop, j: int, high: int)
    requires 0 <= st.end <= j <= high < |st.arr|
    ensures LomutoLoop(st, j, high).end - LomutoLoop(st, j, high).moved >= st.end - st.moved
    decreases high - j
  {
    if j < high {
      GapKept(Advanced(st, j, high), j + 1, high);
      assert LomutoLoop(st, j, high) == LomutoLoop(Advanced(st, j, high), j + 1, high);
    }
  }

  /** Partition makes at most one exchange per smaller element, and strictly
      fewer when the first element of the range is already below the pivot. */
  lemma PartitionMoves(s: seq<int>, low: int, high: int)
    requires 0 <= low <= high < |s|
    ensures Partitioned(s, low, high).moved <= Partitioned(s, low, high).end - low
    ensures low < high && s[low] < s[high] ==> Partitioned(s, low, high).moved < Partitioned(s, low, high).end - low
  {
    var st := Loop(s, low, 0);
    var e := LomutoLoop(st, low, high);
    assert Partitioned(s, low, high).moved == e.moved && Partitioned(s, low, high).end == e.end;
    GapKept(st, low, high);
    if low < high && s[low] < s[high] {
      var st1 := Advanced(st, low, high);
      assert st1.end == low + 1 && st1.moved == 0;
      LoopAdvanced(st, st1, low, high);
      GapKept(st1, low + 1, high);
    }
  }

  /** The outcome of `quickSortHelper(low, high)`: the array it leaves, the
      comparisons it makes, and the swaps each variant counts. */
  datatype Outcome = Outcome(arr: seq<int>, comparisons: nat, recordedSwaps: nat, streamingSwaps: nat)

  /** `quickSortHelper(low, high)`. A partition of [low, high] compares every
      other element of the range with the pivot; the streaming variant counts
      one swap per smaller element (p - low of them) plus the pivot's, the
      recorded one only the exchanges partition actually made plus the
      pivot's. */
  function QuickRun(s: seq<int>, low: int, high: int): (r: Outcome)
    requires 0 <= low <= high + 1 <= |s|
    ensures |r.arr| == |s|
    decreases high - low, 1
  {
    if low < high then Divided(Partitioned(s, low, high), low, high)
    else Outcome(s, 0, 0, 0)
  }

  /** The rest of `quickSortHelper(low, high)` once partition has split the
      range at split.end: the left side, then the right side. */
  function Divided(split: Loop, low: int, high: int): (r: Outcome)
    requires 0 <= low <= split.end <= high < |split.arr|
    ensures |r.arr| == |split.arr|
    decreases high - low, 0
  {
    var l := QuickRun(split.arr, low, split.end - 1);
    var r := QuickRun(l.arr, split.end + 1, high);
    Outcome(r.arr, (high - low) + l.comparisons + r.comparisons,
      1 + split.moved + l.recordedSwaps + r.recordedSwaps,
      1 + (split.end - low) + l.streamingSwaps + r.streamingSwaps)
  }

  /** One level of the recursion: partition, then the left side l, then
      the right side r. */
  lemma QuickRunUnfolded(s0: seq<int>, split: Loop, l: Outcome, r: Outcome, low: int, high: int)
    requires 0 <= low < high < |s0|
    requires split == Partitioned(s0, low, high)
    requires l == QuickRun(split.arr, low, split.end - 1) && r == QuickRun(l.arr, split.end + 1, high)
    ensures QuickRun(s0, low, high) == Outcome(r.arr, (high - low) + l.comparisons + r.comparisons,
      1 + split.moved + l.recordedSwaps + r.recordedSwaps, 1 + (split.end - low) + l.streamingSwaps + r.streamingSwaps)
  {
  }

  /** On the same input the streaming variant counts at least as many swaps
      as the recorded one, and strictly more as soon as the first element of
      a partitioned range is already below its pivot. */
  lemma {:induction false} SwapsCompared(s: seq<int>, low: int, high: int)
    requires 0 <= low <= high + 1 <= |s|
    ensures QuickRun(s, low, high).recordedSwaps <= QuickRun(s, low, high).streamingSwaps
    ensures low < high && s[low] < s[high] ==>
      QuickRun(s, low, high).recordedSwaps < QuickRun(s, low, high).streamingSwaps
    decreases high - low
  {
    if low < high {
      var split := Partitioned(s, low, high);
      var l := QuickRun(split.arr, low, split.end - 1);
      var r := QuickRun(l.arr, split.end + 1, high);
      PartitionMoves(s, low, high);
      SwapsCompared(split.arr, low, split.end - 1);
      SwapsCompared(l.arr, split.end + 1, high);
      QuickRunUnfolded(s, split, l, r, low, high);
    }
  }
}
