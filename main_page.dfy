/** The page logic of main.js: `escapeHtml`, the rule that enables the sort
    button (`updateUI`), the validation of the comma-separated input and the
    module state `handleSort` updates around a run of a streaming engine. */
module MainPage {
  import opened Ordering
  import opened SortSteps
  import opened TextInput
  import opened StreamTrace
  import Engines
  import StreamingBubble
  import StreamingSelection
  import StreamingInsertion
  import StreamingMerge
  import StreamingQuick
  import StreamingHeap
  import RecordedMerge
  import Lomuto
  import HeapOrder

  // ---------------------------------------------------------------- escapeHtml

  /** The five characters `escapeHtml` replaces. */
  predicate Special(c: char)
  {
    c == '&' || c == '<' || c == '>' || c == '"' || c == '\''
  }

  /** The characters that could open a tag or close an attribute value. */
  predicate Markup(c: char)
  {
    c == '<' || c == '>' || c == '"' || c == '\''
  }

  /** The entity `escapeHtml` substitutes for one character; every other
      character stands for itself. No entity holds a markup character. */
  function Entity(c: char): (r: string)
    ensures !Special(c) ==> r == [c]
    ensures Special(c) ==> |r| >= 4 && r[0] == '&' && r[|r| - 1] == ';'
    ensures forall k :: 0 <= k < |r| ==> !Markup(r[k])
  {
    match c
    case '&' => "&amp;"
    case '<' => "&lt;"
    case '>' => "&gt;"
    case '"' => "&quot;"
    case '\'' => "&#039;"
    case _ => [c]
  }

  /** `text.replace(/[&<>"']/g, m => map[m])`: each character replaced by its
      entity, left to right. The output holds none of < > " ', and text
      without any of the five characters comes back unchanged. */
  function EscapeHtml(text: string): (r: string)
    ensures forall k :: 0 <= k < |r| ==> !Markup(r[k])
    ensures (forall k :: 0 <= k < |text| ==> !Special(text[k])) ==> r == text
    decreases |text|
  {
    if text == [] then []
    else
      var c := text[0];
      var rest := EscapeHtml(text[1..]);
      var r := Entity(c) + rest;
      assert forall k :: |Entity(c)| <= k < |r| ==> r[k] == rest[k - |Entity(c)|];
      assert text == [c] + text[1..];
      r
  }

  /** How many characters an entity adds: 4 for &, 3 for < and >, 5 for "
      and ', none for anything else. */
  lemma EntityLength(c: char)
    ensures |Entity(c)| == 1 + 4 * multiset{c}['&'] + 3 * multiset{c}['<'] + 3 * multiset{c}['>']
      + 5 * multiset{c}['"'] + 5 * multiset{c}['\'']
  {
  }

  /** The output is 4 characters longer per &, 3 per < or >, and 5 per " or '. */
  lemma {:induction false} EscapedLength(text: string)
    ensures |EscapeHtml(text)| == |text| + 4 * multiset(text)['&'] + 3 * multiset(text)['<']
      + 3 * multiset(text)['>'] + 5 * multiset(text)['"'] + 5 * multiset(text)['\'']
    decreases |text|
  {
    if text != [] {
      var c := text[0];
      var m := multiset(text[1..]);
      EscapedLength(text[1..]);
      EntityLength(c);
      assert |EscapeHtml(text)| == |Entity(c)| + |EscapeHtml(text[1..])|;
      CountsSplit(text);
    }
  }

  /** The count of each special character in a non-empty text is its count in
      the first character plus its count in the rest. */
  lemma CountsSplit(text: string)
    requires text != []
    ensures var c, m := text[0], multiset(text[1..]);
      && multiset(text)['&'] == multiset{c}['&'] + m['&']
      && multiset(text)['<'] == multiset{c}['<'] + m['<']
      && multiset(text)['>'] == multiset{c}['>'] + m['>']
      && multiset(text)['"'] == multiset{c}['"'] + m['"']
      && multiset(text)['\''] == multiset{c}['\''] + m['\'']
  {
    assert text == [text[0]] + text[1..];
    assert multiset(text) == multiset{text[0]} + multiset(text[1..]);
  }

  /** Escaping a text that starts with c is c's entity followed by the rest
      escaped. */
  lemma EscapeCons(c: char, t: string)
    ensures EscapeHtml([c] + t) == Entity(c) + EscapeHtml(t)
  {
    assert ([c] + t)[0] == c && ([c] + t)[1..] == t;
  }

  /** Escaping distributes over concatenation: characters are copied in order. */
  lemma {:induction false} EscapeConcat(a: string, b: string)
    ensures EscapeHtml(a + b) == EscapeHtml(a) + EscapeHtml(b)
    decreases |a|
  {
    if a != [] {
      var c, t := a[0], a[1..];
      assert a == [c] + t;
      calc {
        EscapeHtml(a + b);
        { assert a + b == [c] + (t + b); }
        EscapeHtml([c] + (t + b));
        { EscapeCons(c, t + b); }
        Entity(c) + EscapeHtml(t + b);
        { EscapeConcat(t, b); }
        Entity(c) + (EscapeHtml(t) + EscapeHtml(b));
        (Entity(c) + EscapeHtml(t)) + EscapeHtml(b);
        { EscapeCons(c, t); }
        EscapeHtml(a) + EscapeHtml(b);
      }
    } else {
      assert a + b == b;
    }
  }

  /** The browser's decoding of the five entities, the partner of `EscapeHtml`. */
  function Unescape(t: string): string
    decreases |t|
  {
    if t == [] then []
    else if |t| >= 5 && t[..5] == "&amp;" then "&" + Unescape(t[5..])
    else if |t| >= 4 && t[..4] == "&lt;" then "<" + Unescape(t[4..])
    else if |t| >= 4 && t[..4] == "&gt;" then ">" + Unescape(t[4..])
    else if |t| >= 6 && t[..6] == "&quot;" then "\"" + Unescape(t[6..])
    else if |t| >= 6 && t[..6] == "&#039;" then "'" + Unescape(t[6..])
    else [t[0]] + Unescape(t[1..])
  }

  /** Decoding an escaped character followed by anything gives the character back. */
  lemma UnescapeEntity(c: char, rest: string)
    ensures Unescape(Entity(c) + rest) == [c] + Unescape(rest)
  {
    var t := Entity(c) + rest;
    var e := Entity(c);
    assert t[..|e|] == e && t[|e|..] == rest;
    if !Special(c) {
      assert t[0] == c && t[1..] == rest;
      assert !(|t| >= 5 && t[..5] == "&amp;") && !(|t| >= 4 && t[..4] == "&lt;") && !(|t| >= 4 && t[..4] == "&gt;");
      assert !(|t| >= 6 && t[..6] == "&quot;") && !(|t| >= 6 && t[..6] == "&#039;");
    } else {
      assert t[1] == e[1] && t[2] == e[2];
      match c
      case '&' =>
      case '<' =>
        assert !(|t| >= 5 && t[..5] == "&amp;");
      case '>' =>
        assert !(|t| >= 5 && t[..5] == "&amp;") && t[..4] != "&lt;";
      case '"' =>
        assert t[..5] != "&amp;" && t[..4] != "&lt;" && t[..4] != "&gt;";
      case '\'' =>
        assert t[..5] != "&amp;" && t[..4] != "&lt;" && t[..4] != "&gt;" && t[..6] != "&quot;";
    }
  }

  /** Escaping loses nothing: decoding the output gives the text back. */
  lemma {:induction false} UnescapeEscape(text: string)
    ensures Unescape(EscapeHtml(text)) == text
    decreases |text|
  {
    if text != [] {
      UnescapeEntity(text[0], EscapeHtml(text[1..]));
      UnescapeEscape(text[1..]);
      assert text == [text[0]] + text[1..];
    }
  }

  /** Hence different texts never escape to the same markup. */
  lemma EscapeInjective(a: string, b: string)
    requires EscapeHtml(a) == EscapeHtml(b)
    ensures a == b
  {
    UnescapeEscape(a);
    UnescapeEscape(b);
  }

  // ------------------------------------------------------------ the sort button

  /** `updateUI`'s rule: the button is enabled when the trimmed input is
      non-empty, an algorithm is selected and no sort is running. */
  predicate SortEnabled(input: string, algorithm: string, sorting: bool)
  {
    |Trim(input)| > 0 && algorithm != "" && !sorting
  }

  /** The rule in terms of the raw input: some character of it is not white
      space, an algorithm is selected and no sort is running. */
  lemma SortEnabledIff(input: string, algorithm: string, sorting: bool)
    ensures SortEnabled(input, algorithm, sorting)
        <==> (exists k :: 0 <= k < |input| && !IsSpace(input[k])) && algorithm != "" && !sorting
  {
    TrimBlank(input);
  }

  // ---------------------------------------------------------- token validation

  /** A token as `filter(s => s !== '')` keeps it after `trim`. */
  predicate Trimmed(t: string)
  {
    t != [] && Trim(t) == t
  }

  /** `.map(s => s.trim()).filter(s => s !== '')`: the trimmed non-blank tokens,
      in order. */
  function NonBlank(tokens: seq<string>): (r: seq<string>)
    ensures |r| <= |tokens|
    ensures forall k :: 0 <= k < |r| ==> Trimmed(r[k])
    ensures forall k, c :: 0 <= k < |r| && c in r[k] ==> exists j :: 0 <= j < |tokens| && c in tokens[j]
    decreases |tokens|
  {
    if tokens == [] then []
    else
      var t := Trim(tokens[0]);
      var rest := NonBlank(tokens[1..]);
      assert forall j :: 0 <= j < |tokens| - 1 ==> tokens[1..][j] == tokens[j + 1];
      if t == [] then rest
      else
        TrimIdempotent(tokens[0]);
        assert forall c :: c in t ==> c in tokens[0];
        var r := [t] + rest;
        assert forall k :: 0 < k < |r| ==> r[k] == rest[k - 1];
        r
  }

  /** Blank tokens are dropped and the others kept, so a list without blank
      tokens loses nothing but its surrounding white space. */
  lemma {:induction false} NonBlankKeeps(tokens: seq<string>)
    requires forall k :: 0 <= k < |tokens| ==> Trim(tokens[k]) != []
    ensures |NonBlank(tokens)| == |tokens|
    ensures forall k :: 0 <= k < |tokens| ==> NonBlank(tokens)[k] == Trim(tokens[k])
    decreases |tokens|
  {
    if tokens != [] {
      NonBlankKeeps(tokens[1..]);
      var r := NonBlank(tokens);
      assert r == [Trim(tokens[0])] + NonBlank(tokens[1..]);
      forall k | 0 <= k < |tokens| ensures r[k] == Trim(tokens[k]) {
        if k > 0 {
          assert r[k] == NonBlank(tokens[1..])[k - 1];
        }
      }
    }
  }

  /** Filtering a concatenation filters each part: a blank token drops out
      without disturbing the tokens around it. */
  lemma {:induction false} NonBlankConcat(a: seq<string>, b: seq<string>)
    ensures NonBlank(a + b) == NonBlank(a) + NonBlank(b)
    decreases |a|
  {
    if a != [] {
      assert (a + b)[0] == a[0] && (a + b)[1..] == a[1..] + b;
      NonBlankConcat(a[1..], b);
    } else {
      assert a + b == b;
    }
  }

  /** A single token is kept, trimmed, exactly when it is not blank. */
  lemma NonBlankOne(t: string)
    ensures NonBlank([t]) == (if Trim(t) == [] then [] else [Trim(t)])
  {
    assert [t][1..] == [];
  }

  /** The tokens `handleSort` converts: the trimmed input split on commas,
      each token trimmed, blank ones dropped. */
  function Tokens(input: string): (r: seq<string>)
    ensures |r| <= |Split(Trim(input), ',')|
    ensures forall k :: 0 <= k < |r| ==> Trimmed(r[k]) && ',' !in r[k]
    ensures Trim(input) == [] ==> r == []
  {
    NonBlank(Split(Trim(input), ','))
  }

  /** The joined text ends with the last token. */
  lemma {:induction false} JoinSuffix(tokens: seq<string>, sep: char)
    requires |tokens| >= 1
    ensures var s := Join(tokens, sep); var t := tokens[|tokens| - 1];
      |t| <= |s| && s[|s| - |t|..] == t
    decreases |tokens|
  {
    if |tokens| > 1 {
      JoinSuffix(tokens[1..], sep);
      assert tokens[1..][|tokens| - 2] == tokens[|tokens| - 1];
      var rest := Join(tokens[1..], sep);
      var t := tokens[|tokens| - 1];
      assert Join(tokens, sep) == tokens[0] + [sep] + rest;
      assert (tokens[0] + [sep] + rest)[|tokens[0]| + 1 + |rest| - |t|..] == rest[|rest| - |t|..];
    }
  }

  /** The joined text starts with the first token's first character and ends
      with the last token's last character, whatever lies between. */
  lemma JoinEnds(tokens: seq<string>, sep: char)
    requires |tokens| >= 1 && tokens[0] != [] && tokens[|tokens| - 1] != []
    ensures var s := Join(tokens, sep);
      && s != [] && s[0] == tokens[0][0]
      && s[|s| - 1] == tokens[|tokens| - 1][|tokens[|tokens| - 1]| - 1]
  {
    JoinSuffix(tokens, sep);
    var s := Join(tokens, sep);
    var t := tokens[|tokens| - 1];
    assert s[|s| - |t|..][|t| - 1] == t[|t| - 1];
    if |tokens| > 1 {
      assert s == tokens[0] + [sep] + Join(tokens[1..], sep);
    }
  }

  /** The comma-joined text of pieces whose first and last are trimmed and
      non-blank is its own trim. */
  lemma JoinTrimmed(pieces: seq<string>)
    requires |pieces| >= 1 && Trimmed(pieces[0]) && Trimmed(pieces[|pieces| - 1])
    ensures Trim(Join(pieces, ',')) == Join(pieces, ',')
  {
    JoinEnds(pieces, ',');
    TrimBlank(Join(pieces, ','));
  }

  /** Typing comma-free pieces separated by commas, the outer two trimmed and
      non-blank, gives the pieces' non-blank trims: every piece is a token,
      blank or not. */
  lemma TokensPieces(pieces: seq<string>)
    requires |pieces| >= 1 && Trimmed(pieces[0]) && Trimmed(pieces[|pieces| - 1])
    requires forall k :: 0 <= k < |pieces| ==> ',' !in pieces[k]
    ensures Tokens(Join(pieces, ',')) == NonBlank(pieces)
  {
    JoinTrimmed(pieces);
    JoinSplit(pieces, ',');
  }

  /** Typing trimmed, non-blank, comma-free tokens separated by commas gives
      back exactly those tokens. */
  lemma TokensJoin(tokens: seq<string>)
    requires |tokens| >= 1
    requires forall k :: 0 <= k < |tokens| ==> Trimmed(tokens[k]) && ',' !in tokens[k]
    ensures Tokens(Join(tokens, ',')) == tokens
  {
    TokensPieces(tokens);
    NonBlankTrimmed(tokens);
  }

  /** Tokens that are already trimmed and non-blank pass unchanged. */
  lemma NonBlankTrimmed(tokens: seq<string>)
    requires forall k :: 0 <= k < |tokens| ==> Trimmed(tokens[k])
    ensures NonBlank(tokens) == tokens
  {
    NonBlankKeeps(tokens);
    var r := NonBlank(tokens);
    assert forall k :: 0 <= k < |r| ==> r[k] == tokens[k];
  }

  /** A blank token after a run of trimmed tokens is dropped. */
  lemma NonBlankDropsLast(before: seq<string>, blank: string)
    requires forall k :: 0 <= k < |before| ==> Trimmed(before[k])
    requires Trim(blank) == []
    ensures NonBlank(before + [blank]) == before
  {
    NonBlankConcat(before, [blank]);
    NonBlankOne(blank);
    NonBlankTrimmed(before);
    assert before + [] == before;
  }

  /** A blank token between two runs of trimmed tokens is dropped and
      every token around it is kept, in order. */
  lemma NonBlankSkips(before: seq<string>, blank: string, after: seq<string>)
    requires forall k :: 0 <= k < |before| ==> Trimmed(before[k])
    requires forall k :: 0 <= k < |after| ==> Trimmed(after[k])
    requires Trim(blank) == []
    ensures NonBlank(before + [blank] + after) == before + after
  {
    NonBlankDropsLast(before, blank);
    NonBlankConcat(before + [blank], after);
    NonBlankTrimmed(after);
  }

  /** Where the tokens around a middle piece sit in the joined list. */
  lemma PiecesAround(before: seq<string>, blank: string, after: seq<string>)
    requires |before| >= 1 && |after| >= 1
    ensures var pieces := before + [blank] + after;
      && pieces[0] == before[0] && pieces[|pieces| - 1] == after[|after| - 1]
      && forall k :: 0 <= k < |pieces| ==>
           pieces[k] == (if k < |before| then before[k] else if k == |before| then blank else after[k - |before| - 1])
  {
  }

  /** A blank entry between two runs of numbers (`"1, ,2"`) is skipped and
      every token around it is kept, in order. */
  lemma TokensSkipBlank(before: seq<string>, blank: string, after: seq<string>)
    requires |before| >= 1 && |after| >= 1
    requires forall k :: 0 <= k < |before| ==> Trimmed(before[k]) && ',' !in before[k]
    requires forall k :: 0 <= k < |after| ==> Trimmed(after[k]) && ',' !in after[k]
    requires Trim(blank) == [] && ',' !in blank
    ensures Tokens(Join(before + [blank] + after, ',')) == before + after
  {
    var pieces := before + [blank] + after;
    PiecesAround(before, blank, after);
    TokensPieces(pieces);
    NonBlankSkips(before, blank, after);
  }

  /** What `handleSort` makes of the input before sorting. */
  datatype Validation = Accepted(numbers: seq<int>) | NotANumber | TooFew

  /** The validation in `handleSort`: reject the whole input when some token is
      NaN, then when fewer than two numbers remain; otherwise the numbers in
      token order. */
  function Validate(input: string, toNumber: string -> Option<int>): (r: Validation)
    ensures var tokens := Tokens(input);
      && (r.NotANumber? <==> exists k :: 0 <= k < |tokens| && toNumber(tokens[k]).None?)
      && (r.TooFew? <==> (forall k :: 0 <= k < |tokens| ==> toNumber(tokens[k]).Some?) && |tokens| < 2)
      && (r.Accepted? ==>
            |r.numbers| == |tokens| >= 2
            && forall k :: 0 <= k < |tokens| ==> toNumber(tokens[k]) == Some(r.numbers[k]))
  {
    var tokens := Tokens(input);
    if exists k :: 0 <= k < |tokens| && toNumber(tokens[k]).None? then NotANumber
    else if |tokens| < 2 then TooFew
    else Accepted(seq(|tokens|, k requires 0 <= k < |tokens| => toNumber(tokens[k]).value))
  }

  // ------------------------------------------------------------- the page state

  /** What the counters of the streaming engine `alg` on input a0 with
      result a say about that engine: bubble and selection compare every
      pair, bubble and insertion swap once per inversion, merge writes every
      merged range, quick sort and heap sort follow their reference runs
      (where quick sort counts every exchange, placed or not). */
  predicate StreamedBy(alg: Engines.Algorithm, a0: seq<int>, a: seq<int>, comparisons: nat, swaps: nat)
  {
    match alg
    case Bubble => comparisons == Pairs(|a0|) && swaps == Inversions(a0)
    case Selection =>
      && comparisons == Pairs(|a0|)
      && (|a0| >= 1 ==> swaps <= |a0| - 1)
      && (Sorted(a0) ==> swaps == 0 && a == a0)
    case Insertion =>
      && swaps == Inversions(a0)
      && comparisons + Drops(a0) == swaps + (if |a0| == 0 then 0 else |a0| - 1)
    case Merge => swaps == RecordedMerge.Writes(0, |a0| - 1) && comparisons <= swaps
    case Quick =>
      && a == Lomuto.QuickRun(a0, 0, |a0| - 1).arr
      && comparisons == Lomuto.QuickRun(a0, 0, |a0| - 1).comparisons
      && swaps == Lomuto.QuickRun(a0, 0, |a0| - 1).streamingSwaps
    case Heap =>
      && a == HeapOrder.HeapRun(a0).arr
      && comparisons == HeapOrder.HeapRun(a0).comparisons
      && swaps == (if |a0| == 0 then 0 else |a0| - 1) + HeapOrder.HeapRun(a0).sifts
  }

  /** The page's streaming engine and the visualizer's recorded engine of
      the same algorithm, run on the same input, agree on the comparison
      count (except merge, which only bounds it) and on the swap count for
      bubble, insertion, merge and heap; heap and quick sort also end on the
      same array. Streaming quick sort counts at least as many swaps, since
      it counts the exchanges of elements already in place. */
  lemma EnginesAgree(alg: Engines.Algorithm, arr: seq<int>, r: SortResult, a: seq<int>, comparisons: nat, swaps: nat)
    requires Engines.Produced(alg, arr, r) && StreamedBy(alg, arr, a, comparisons, swaps)
    ensures alg != Engines.Merge ==> r.comparisons == comparisons
    ensures alg in {Engines.Bubble, Engines.Insertion, Engines.Merge, Engines.Heap} ==> r.swaps == swaps
    ensures alg in {Engines.Quick, Engines.Heap} ==> Last(r.steps).snapshot == a
    ensures alg == Engines.Quick ==> r.swaps <= swaps
  {
    if alg == Engines.Quick {
      Lomuto.SwapsCompared(arr, 0, |arr| - 1);
    }
  }

  /** `sortingAlgorithms[key](arr, ...)` of algorithms/sorting.js, with the
      same keys as the recorded engines' table: sorts arr in place, with the
      selected engine's counters. */
  method Stream(alg: Engines.Algorithm, arr: array<int>) returns (trace: seq<Event>, comparisons: nat, swaps: nat)
    modifies arr
    ensures Sorted(arr[..]) && multiset(arr[..]) == multiset(old(arr[..]))
    ensures Counted(trace, comparisons, swaps)
    ensures StreamedBy(alg, old(arr[..]), arr[..], comparisons, swaps)
  {
    match alg
    case Bubble => trace, comparisons, swaps := StreamingBubble.BubbleSort(arr);
    case Selection => trace, comparisons, swaps := StreamingSelection.SelectionSort(arr);
    case Insertion => trace, comparisons, swaps := StreamingInsertion.InsertionSort(arr);
    case Merge => trace, comparisons, swaps := StreamingMerge.MergeSort(arr);
    case Quick => trace, comparisons, swaps := StreamingQuick.QuickSort(arr);
    case Heap => trace, comparisons, swaps := StreamingHeap.HeapSort(arr);
  }

  /** The module state of main.js together with the text box and the sort
      button it drives. */
  class Page {
    var algorithm: string    // currentAlgorithm
    var data: seq<int>       // currentData
    var sorting: bool        // isSorting
    var input: string        // the text box's value
    var sortDisabled: bool   // the sort button's disabled flag

    /** The button always shows the enable rule of the current state. */
    ghost predicate Valid()
      reads this
    {
      sortDisabled == !SortEnabled(input, algorithm, sorting)
    }

    /** Page load: nothing selected, no data, the button disabled. */
    constructor()
      ensures Valid() && sortDisabled
      ensures algorithm == "" && data == [] && !sorting && input == ""
    {
      algorithm, data, sorting, input := "", [], false, "";
      sortDisabled := true;
    }

    /** `updateUI`: recompute the button from the state. */
    method UpdateUI()
      modifies this
      ensures Valid()
      ensures algorithm == old(algorithm) && data == old(data) && sorting == old(sorting) && input == old(input)
    {
      sortDisabled := !SortEnabled(input, algorithm, sorting);
    }

    /** The algorithm select's `change` handler. */
    method SelectAlgorithm(value: string)
      modifies this
      ensures Valid() && algorithm == value
      ensures data == old(data) && sorting == old(sorting) && input == old(input)
    {
      algorithm := value;
      UpdateUI();
    }

    /** The text box's `input` handler. */
    method Type(text: string)
      modifies this
      ensures Valid() && input == text
      ensures algorithm == old(algorithm) && data == old(data) && sorting == old(sorting)
    {
      input := text;
      UpdateUI();
    }

    /** `handleSort` up to its first `await`: validate the input (rejected
      input changes nothing), store the numbers, mark the sort running and
      look the engine up. An unknown key throws inside the `try`, which ends
      the run at once. While the returned engine runs, the button stays
      disabled whatever else the user does. The handler is bound to the
      button's click only, so it runs only while the button is enabled. */
    method StartSort(toNumber: string -> Option<int>) returns (v: Validation, engine: Option<Engines.Algorithm>)
      requires Valid() && !sortDisabled
      modifies this
      ensures Valid() && v == Validate(old(input), toNumber)
      ensures algorithm == old(algorithm) && input == old(input)
      ensures !v.Accepted? ==> data == old(data) && sorting == old(sorting) && sortDisabled == old(sortDisabled) && engine.None?
      ensures v.Accepted? ==> data == v.numbers
      ensures v.Accepted? ==> engine == Engines.Lookup(algorithm)
      ensures engine.Some? <==> v.Accepted? && sorting && sortDisabled
      ensures v.Accepted? && engine.None? ==> !sorting
    {
      v := Validate(input, toNumber);
      engine := None;
      if !v.Accepted? {
        return;
      }
      data := v.numbers;
      sorting := true;
      UpdateUI();
      engine := Engines.Lookup(algorithm);
      if engine.None? {
        sorting := false;
        UpdateUI();
      }
    }

    /** The rest of `handleSort`: the engine sorts `currentData` in place and
      its counters are the ones the stats cards show last; then the run is
      marked finished and the button recomputed. */
    method FinishSort(engine: Engines.Algorithm) returns (comparisons: nat, swaps: nat)
      requires Valid() && sorting
      modifies this
      ensures Valid() && !sorting
      ensures Sorted(data) && multiset(data) == multiset(old(data))
      ensures StreamedBy(engine, old(data), data, comparisons, swaps)
      ensures algorithm == old(algorithm) && input == old(input)
    {
      var d := data;
      var arr := new int[|d|](k requires 0 <= k < |d| => d[k]);
      assert arr[..] == d;
      var trace;
      trace, comparisons, swaps := Stream(engine, arr);
      data := arr[..];
      sorting := false;
      UpdateUI();
    }
  }
}
