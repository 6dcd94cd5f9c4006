/** The Visualizer page of src/pages/Visualizer.tsx: the form that runs a
    recorded engine on the parsed input, the playback state machine that walks
    a cursor over the recorded steps, and the record the CSV export is built
    from. React state becomes the fields of `Visualizer`; each event handler,
    and each firing of the playback timer, is one method call. */
module Playback {
  import opened Ordering
  import opened SortSteps
  import opened TextInput
  import Engines

  /** The largest input the page accepts. */
  const MaxElements := 50

  /** What a click on the sort button did. */
  datatype SortRequest =
    | Locked      // the button is disabled while playing
    | NoNumbers   // nothing parsed: the page alerts and changes nothing
    | TooMany     // more than 50 numbers: the page alerts and changes nothing
    | Loaded      // the engine ran and its result is shown from step 0

  /** The fields of the exported performance record that the page computes
      (the timing and the memory estimate are not modelled). */
  datatype ExportRecord = ExportRecord(
    algorithm: string,
    arraySize: nat,
    comparisons: nat,
    swaps: nat,
    inputArray: seq<int>,
    sortedArray: seq<int>)

  class Visualizer {
    var selected: Engines.Algorithm    // selectedAlgorithm
    var input: string                  // inputData
    var result: Option<SortResult>     // sortResult
    var cursor: int                    // currentStep
    var playing: bool                  // isPlaying
    var speed: int                     // playbackSpeed, in milliseconds
    var original: seq<int>             // originalArray

    /** The cursor always names a recorded step (it is 0 with no result), the
        player only runs with a result, and the result is the engine's
        record of the stored input. */
    ghost predicate Valid()
      reads this
    {
      && 0 <= cursor
      && (result.None? ==> cursor == 0 && !playing)
      && (result.Some? ==> Recorded(original, result.value) && cursor <= |result.value.steps| - 1)
    }

    /** The first render. */
    constructor()
      ensures Valid()
      ensures selected == Engines.Bubble && input == "64, 34, 25, 12, 22, 11, 90"
      ensures result.None? && cursor == 0 && !playing && speed == 500 && original == []
    {
      selected := Engines.Bubble;
      input := "64, 34, 25, 12, 22, 11, 90";
      result := None;
      cursor := 0;
      playing := false;
      speed := 500;
      original := [];
    }

    /** The index of the last recorded step. */
    function LastStep(): (i: int)
      requires Valid() && result.Some?
      reads this
      ensures 0 <= cursor <= i
    {
      |result.value.steps| - 1
    }

    /** One run of the playback effect together with the timer it sets: with
        no result or while paused nothing happens; at the last step playing
        stops; otherwise the cursor moves on by exactly one step. */
    method Tick()
      requires Valid()
      modifies this
      ensures Valid()
      ensures result == old(result) && original == old(original) && selected == old(selected)
      ensures input == old(input) && speed == old(speed)
      ensures !old(playing) ==> cursor == old(cursor) && !playing
      ensures old(playing) && old(cursor) < LastStep() ==> cursor == old(cursor) + 1 && playing
      ensures old(playing) && old(cursor) == LastStep() ==> cursor == old(cursor) && !playing
    {
      if !playing || result.None? {
        return;
      }
      if cursor >= |result.value.steps| - 1 {
        playing := false;
        return;
      }
      cursor := cursor + 1;
    }

    /** The effect keeps re-running after every render while playing: from any
        state, playback comes to rest, and if it was playing it stops exactly
        at the last step. */
    method RunToRest()
      requires Valid()
      modifies this
      ensures Valid() && !playing
      ensures result == old(result) && original == old(original) && selected == old(selected)
      ensures input == old(input) && speed == old(speed)
      ensures old(playing) ==> cursor == LastStep()
      ensures !old(playing) ==> cursor == old(cursor)
    {
      while playing
        invariant Valid()
        invariant result == old(result) && original == old(original) && selected == old(selected)
        invariant input == old(input) && speed == old(speed)
        invariant old(playing) ==> old(cursor) <= cursor
        invariant !old(playing) ==> cursor == old(cursor) && !playing
        invariant old(playing) && !playing ==> cursor == LastStep()
        decreases (if result.Some? then |result.value.steps| else 0) - cursor + (if playing then 1 else 0)
      {
        Tick();
      }
    }

    /** `handlePlayPause`: nothing without a result; at the last step the
        cursor first goes back to 0; then playing is toggled. */
    method PlayPause()
      requires Valid()
      modifies this
      ensures Valid()
      ensures result == old(result) && original == old(original) && selected == old(selected)
      ensures input == old(input) && speed == old(speed)
      ensures old(result).None? ==> cursor == old(cursor) && playing == old(playing)
      ensures old(result).Some? ==> playing == !old(playing)
      ensures old(result).Some? && old(cursor) == LastStep() ==> cursor == 0
      ensures old(result).Some? && old(cursor) < LastStep() ==> cursor == old(cursor)
    {
      if result.None? {
        return;
      }
      if cursor >= |result.value.steps| - 1 {
        cursor := 0;
      }
      playing := !playing;
    }

    /** `handleReset`: back to the first step, paused; the result is kept. */
    method Reset()
      requires Valid()
      modifies this
      ensures Valid() && cursor == 0 && !playing
      ensures result == old(result) && original == old(original) && selected == old(selected)
      ensures input == old(input) && speed == old(speed)
    {
      cursor := 0;
      playing := false;
    }

    /** The speed slider: only the timer's delay changes, never the cursor. */
    method SetSpeed(value: int)
      requires Valid()
      modifies this
      ensures Valid() && speed == value
      ensures cursor == old(cursor) && playing == old(playing)
      ensures result == old(result) && original == old(original) && selected == old(selected)
      ensures input == old(input)
    {
      speed := value;
    }

    /** The algorithm select, disabled while playing. */
    method Select(alg: Engines.Algorithm)
      requires Valid()
      modifies this
      ensures Valid()
      ensures selected == if old(playing) then old(selected) else alg
      ensures cursor == old(cursor) && playing == old(playing) && speed == old(speed)
      ensures result == old(result) && original == old(original) && input == old(input)
    {
      if !playing {
        selected := alg;
      }
    }

    /** The input box, disabled while playing. */
    method Type(text: string)
      requires Valid()
      modifies this
      ensures Valid()
      ensures input == if old(playing) then old(input) else text
      ensures cursor == old(cursor) && playing == old(playing) && speed == old(speed)
      ensures result == old(result) && original == old(original) && selected == old(selected)
    {
      if !playing {
        input := text;
      }
    }

    /** The sort button and `handleSort`: parse the input; refuse an empty
        list or one longer than 50 without touching any state; otherwise store
        the input, rewind to step 0 paused, and show the selected engine's
        record of the input. `parseInt` is the parameter `parse`. */
    method HandleSort(parse: string -> Option<int>) returns (r: SortRequest)
      requires Valid()
      modifies this
      ensures Valid()
      ensures selected == old(selected) && input == old(input) && speed == old(speed)
      ensures r == (if old(playing) then Locked
                    else if |ParseInput(old(input), parse)| == 0 then NoNumbers
                    else if |ParseInput(old(input), parse)| > MaxElements then TooMany
                    else Loaded)
      ensures r != Loaded ==>
        cursor == old(cursor) && playing == old(playing) && result == old(result) && original == old(original)
      ensures r == Loaded ==>
        && original == ParseInput(old(input), parse) && 1 <= |original| <= MaxElements
        && cursor == 0 && !playing
        && result.Some? && result.value.steps[0].snapshot == original
        && Engines.Produced(selected, original, result.value)
    {
      if playing {
        return Locked;
      }
      var numbers := ParseInput(input, parse);
      if |numbers| == 0 {
        return NoNumbers;
      }
      if |numbers| > MaxElements {
        return TooMany;
      }
      Load(numbers);
      r := Loaded;
    }

    /** The accepted branch of `handleSort`: store the input, rewind to step 0
        paused, run the selected engine and keep its record. */
    method Load(numbers: seq<int>)
      modifies this
      ensures Valid()
      ensures selected == old(selected) && input == old(input) && speed == old(speed)
      ensures original == numbers && cursor == 0 && !playing
      ensures result.Some? && result.value.steps[0].snapshot == numbers
      ensures Engines.Produced(selected, numbers, result.value)
    {
      original := numbers;
      cursor := 0;
      playing := false;
      var run := Engines.Run(selected, numbers);
      result := Some(run);
    }

    /** The record `handleDownloadCSV` exports: nothing without a result;
        otherwise the selected algorithm's name, the input and its length, the
        counters, and the last step's array. */
    function Export(): (e: Option<ExportRecord>)
      requires Valid()
      reads this
      ensures e.Some? <==> result.Some?
      ensures e.Some? ==>
        && e.value.arraySize == |original| && e.value.inputArray == original
        && e.value.sortedArray == Last(result.value.steps).snapshot
        && e.value.algorithm == Engines.Name(selected)
        && e.value.comparisons == result.value.comparisons && e.value.swaps == result.value.swaps
    {
      match result
      case None => None
      case Some(res) =>
        Some(ExportRecord(Engines.Name(selected), |original|, res.comparisons, res.swaps,
                          original, Last(res.steps).snapshot))
    }

    /** Whatever has happened before, an exported record's sorted array is the
        input sorted: ascending, the same elements, `arraySize` long. */
    lemma ExportSorted()
      requires Valid() && result.Some?
      ensures Export().Some?
      ensures Sorted(Export().value.sortedArray)
      ensures multiset(Export().value.sortedArray) == multiset(Export().value.inputArray)
      ensures |Export().value.sortedArray| == Export().value.arraySize
    {
      var steps := result.value.steps;
      assert |Last(steps).snapshot| == |original|;
    }
  }
}
