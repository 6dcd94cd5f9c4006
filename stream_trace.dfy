/** The callbacks of algorithms/sorting.js as an event trace: `updateStats(c, s)`
    appends `Stats(c, s)` and `visualize(arr, highlight, false)` appends a
    snapshot of the array with the highlighted indices (the third argument is
    always `false` and is not kept). */
module StreamTrace {

  datatype Event = Stats(comparisons: nat, swaps: nat) | Show(snapshot: seq<int>, highlight: seq<int>)

  /** The `Stats` events of the trace walk from (0, 0) to (c, s), each one a
      single counter increment past the previous one: every `comparisons++`
      and every `swaps++` is reported at once, and nothing else is. */
  predicate Counted(trace: seq<Event>, c: nat, s: nat)
    decreases |trace|
  {
    if trace == [] then c == 0 && s == 0
    else
      var rest := trace[..|trace| - 1];
      match trace[|trace| - 1]
      case Show(_, _) => Counted(rest, c, s)
      case Stats(c', s') =>
        c' == c && s' == s && ((c > 0 && Counted(rest, c - 1, s)) || (s > 0 && Counted(rest, c, s - 1)))
  }

  /** `comparisons++; updateStats(comparisons, swaps)`. */
  lemma Compared(trace: seq<Event>, c: nat, s: nat)
    requires Counted(trace, c, s)
    ensures Counted(trace + [Stats(c + 1, s)], c + 1, s)
  {
    assert (trace + [Stats(c + 1, s)])[..|trace|] == trace;
  }

  /** `swaps++; updateStats(comparisons, swaps)`. */
  lemma Swapped(trace: seq<Event>, c: nat, s: nat)
    requires Counted(trace, c, s)
    ensures Counted(trace + [Stats(c, s + 1)], c, s + 1)
  {
    assert (trace + [Stats(c, s + 1)])[..|trace|] == trace;
  }

  /** `visualize(...)` reports nothing. */
  lemma Shown(trace: seq<Event>, c: nat, s: nat, snapshot: seq<int>, highlight: seq<int>)
    requires Counted(trace, c, s)
    ensures Counted(trace + [Show(snapshot, highlight)], c, s)
  {
    assert (trace + [Show(snapshot, highlight)])[..|trace|] == trace;
  }

  /** `comparisons++; updateStats(...); visualize(...)`. */
  lemma CompareShown(trace: seq<Event>, c: nat, s: nat, snapshot: seq<int>, highlight: seq<int>)
    requires Counted(trace, c, s)
    ensures Counted(trace + [Stats(c + 1, s), Show(snapshot, highlight)], c + 1, s)
  {
    Compared(trace, c, s);
    Shown(trace + [Stats(c + 1, s)], c + 1, s, snapshot, highlight);
    assert trace + [Stats(c + 1, s), Show(snapshot, highlight)] == trace + [Stats(c + 1, s)] + [Show(snapshot, highlight)];
  }

  /** `swaps++; updateStats(...); visualize(...)`. */
  lemma SwapShown(trace: seq<Event>, c: nat, s: nat, snapshot: seq<int>, highlight: seq<int>)
    requires Counted(trace, c, s)
    ensures Counted(trace + [Stats(c, s + 1), Show(snapshot, highlight)], c, s + 1)
  {
    Swapped(trace, c, s);
    Shown(trace + [Stats(c, s + 1)], c, s + 1, snapshot, highlight);
    assert trace + [Stats(c, s + 1), Show(snapshot, highlight)] == trace + [Stats(c, s + 1)] + [Show(snapshot, highlight)];
  }

  /** The number of `updateStats` calls in the trace. */
  function Reports(trace: seq<Event>): nat
  {
    if trace == [] then 0 else Reports(trace[..|trace| - 1]) + (if trace[|trace| - 1].Stats? then 1 else 0)
  }

  /** What a counted trace shows a listener: every report is bounded by the
      final counts, reports never decrease in either component, there is one
      report per increment, and the last report is the final pair. */
  lemma {:induction false} CountedReports(trace: seq<Event>, c: nat, s: nat)
    requires Counted(trace, c, s)
    ensures forall p :: 0 <= p < |trace| && trace[p].Stats? ==> trace[p].comparisons <= c && trace[p].swaps <= s
    ensures forall p, q :: 0 <= p < q < |trace| && trace[p].Stats? && trace[q].Stats? ==>
      trace[p].comparisons <= trace[q].comparisons && trace[p].swaps <= trace[q].swaps
    ensures Reports(trace) == c + s
    ensures c + s > 0 ==> exists p :: 0 <= p < |trace| && trace[p] == Stats(c, s)
    decreases |trace|
  {
    if trace != [] {
      var rest := trace[..|trace| - 1];
      var e := trace[|trace| - 1];
      if e.Show? {
        CountedReports(rest, c, s);
      } else if c > 0 && Counted(rest, c - 1, s) {
        CountedReports(rest, c - 1, s);
      } else {
        CountedReports(rest, c, s - 1);
      }
      assert forall p :: 0 <= p < |rest| ==> trace[p] == rest[p];
      if e.Show? && c + s > 0 {
        var p :| 0 <= p < |rest| && rest[p] == Stats(c, s);
        assert trace[p] == Stats(c, s);
      }
    }
  }

  /** Nothing counted means no report at all. */
  lemma NothingCounted(trace: seq<Event>)
    requires Counted(trace, 0, 0)
    ensures forall p :: 0 <= p < |trace| ==> trace[p].Show?
  {
    CountedReports(trace, 0, 0);
    forall p | 0 <= p < |trace| ensures trace[p].Show? {
      if trace[p].Stats? {
        ReportAt(trace, p);
      }
    }
  }

  lemma {:induction false} ReportAt(trace: seq<Event>, p: nat)
    requires p < |trace| && trace[p].Stats?
    ensures Reports(trace) > 0
    decreases |trace|
  {
    if p < |trace| - 1 {
      assert trace[..|trace| - 1][p] == trace[p];
      ReportAt(trace[..|trace| - 1], p);
    }
  }

  /** The state shared by the in-place sorts that only exchange elements: the
      array is a permutation of the caller's original a0, and the trace has
      reported the counters c and s. */
  ghost predicate Streamed(a: seq<int>, a0: seq<int>, trace: seq<Event>, c: nat, s: nat)
  {
    |a| == |a0| && multiset(a) == multiset(a0) && Counted(trace, c, s)
  }
}
