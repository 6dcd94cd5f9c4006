/** The string handling both pages share: JavaScript's `String.prototype.split`
    on one separator character, `String.prototype.trim`, and the `parseInput`
    pipeline of src/pages/Visualizer.tsx. Converting a token to a number
    (`parseInt`, `Number`) is a parameter: a partial function whose `None` is
    JavaScript's NaN. */
module TextInput {
  import opened SortSteps

  /** The characters `trim` strips: ECMAScript's WhiteSpace (tab, vertical tab,
      form feed, the byte order mark and every space separator) and
      LineTerminator (line feed, carriage return, line and paragraph
      separators). */
  const Spaces: set<char> := {
    '\t', '\n', '\U{B}', '\U{C}', '\r', ' ', '\U{A0}', '\U{1680}',
    '\U{2000}', '\U{2001}', '\U{2002}', '\U{2003}', '\U{2004}', '\U{2005}',
    '\U{2006}', '\U{2007}', '\U{2008}', '\U{2009}', '\U{200A}',
    '\U{2028}', '\U{2029}', '\U{202F}', '\U{205F}', '\U{3000}', '\U{FEFF}'}

  predicate IsSpace(c: char)
  {
    c in Spaces
  }

  /** `s.split(sep)`: the maximal runs between separators, in order; there is
      always at least one (possibly empty) token. */
  function Split(s: string, sep: char): (r: seq<string>)
    ensures |r| >= 1
    ensures forall k :: 0 <= k < |r| ==> sep !in r[k]
    decreases |s|
  {
    if s == [] then [[]]
    else
      var rest := Split(s[1..], sep);
      if s[0] == sep then [[]] + rest else [[s[0]] + rest[0]] + rest[1..]
  }

  /** `tokens.join(sep)`, the inverse of `Split`. */
  function Join(tokens: seq<string>, sep: char): string
    requires |tokens| >= 1
  {
    if |tokens| == 1 then tokens[0] else tokens[0] + [sep] + Join(tokens[1..], sep)
  }

  /** Splitting loses nothing: joining the tokens back gives the input. */
  lemma {:induction false} SplitJoin(s: string, sep: char)
    ensures Join(Split(s, sep), sep) == s
    decreases |s|
  {
    if s != [] {
      var rest := Split(s[1..], sep);
      SplitJoin(s[1..], sep);
      if s[0] == sep {
        assert Split(s, sep)[1..] == rest;
      } else {
        var r := Split(s, sep);
        if |rest| == 1 {
          assert r == [[s[0]] + rest[0]];
        } else {
          assert r[1..] == rest[1..];
          assert Join(rest, sep) == rest[0] + [sep] + Join(rest[1..], sep);
        }
      }
    }
  }

  /** A token without the separator glues onto the front of the first token of
      whatever follows it. */
  lemma {:induction false} SplitPrefix(t: string, u: string, sep: char)
    requires sep !in t
    ensures Split(t + u, sep) == [t + Split(u, sep)[0]] + Split(u, sep)[1..]
    decreases |t|
  {
    if t != [] {
      assert (t + u)[0] == t[0] && (t + u)[1..] == t[1..] + u;
      SplitPrefix(t[1..], u, sep);
      assert [t[0]] + (t[1..] + Split(u, sep)[0]) == t + Split(u, sep)[0];
    } else {
      assert t + u == u;
      assert t + Split(u, sep)[0] == Split(u, sep)[0];
      assert Split(u, sep) == [Split(u, sep)[0]] + Split(u, sep)[1..];
    }
  }

  /** Conversely, tokens free of the separator are recovered exactly from their
      join, so `Split` and `Join` are inverse bijections. */
  lemma {:induction false} JoinSplit(tokens: seq<string>, sep: char)
    requires |tokens| >= 1
    requires forall k :: 0 <= k < |tokens| ==> sep !in tokens[k]
    ensures Split(Join(tokens, sep), sep) == tokens
    decreases |tokens|
  {
    if |tokens| == 1 {
      SplitPrefix(tokens[0], [], sep);
      assert tokens[0] + [] == tokens[0];
    } else {
      var rest := Join(tokens[1..], sep);
      JoinSplit(tokens[1..], sep);
      assert tokens[0] + [sep] + rest == tokens[0] + ([sep] + rest);
      SplitPrefix(tokens[0], [sep] + rest, sep);
      assert ([sep] + rest)[1..] == rest;
      assert Split([sep] + rest, sep) == [[]] + tokens[1..];
      assert tokens[0] + [] == tokens[0];
      assert tokens == [tokens[0]] + tokens[1..];
    }
  }

  /** `trimStart`: the index of the first character that is not white space
      (|s| when there is none). */
  function Lead(s: string): (n: nat)
    ensures n <= |s|
    ensures forall k :: 0 <= k < n ==> IsSpace(s[k])
    ensures n == |s| || !IsSpace(s[n])
  {
    LeadFrom(s, 0)
  }

  function LeadFrom(s: string, i: nat): (n: nat)
    requires i <= |s|
    requires forall k :: 0 <= k < i ==> IsSpace(s[k])
    ensures i <= n <= |s|
    ensures forall k :: 0 <= k < n ==> IsSpace(s[k])
    ensures n == |s| || !IsSpace(s[n])
    decreases |s| - i
  {
    if i < |s| && IsSpace(s[i]) then LeadFrom(s, i + 1) else i
  }

  /** `trimEnd` above `lo`: the index just past the last character at or
      after lo that is not white space (lo when there is none). */
  function Trail(s: string, lo: nat, hi: nat): (m: nat)
    requires lo <= hi <= |s|
    requires forall k :: hi <= k < |s| ==> IsSpace(s[k])
    ensures lo <= m <= hi
    ensures forall k :: m <= k < |s| ==> IsSpace(s[k])
    ensures m == lo || !IsSpace(s[m - 1])
    decreases hi
  {
    if lo < hi && IsSpace(s[hi - 1]) then Trail(s, lo, hi - 1) else hi
  }

  /** Where the trimmed slice of s ends. */
  function End(s: string): (m: nat)
    ensures Lead(s) <= m <= |s|
    ensures forall k :: m <= k < |s| ==> IsSpace(s[k])
    ensures m == Lead(s) || !IsSpace(s[m - 1])
  {
    Trail(s, Lead(s), |s|)
  }

  /** `trim`: the slice of s left after dropping white space at either end;
      everything dropped is white space and the slice neither starts nor ends
      with white space. */
  function Trim(s: string): (r: string)
    ensures Lead(s) + |r| <= |s| && r == s[Lead(s)..Lead(s) + |r|]
    ensures forall k :: 0 <= k < Lead(s) ==> IsSpace(s[k])
    ensures forall k :: Lead(s) + |r| <= k < |s| ==> IsSpace(s[k])
    ensures r == [] || (!IsSpace(r[0]) && !IsSpace(r[|r| - 1]))
  {
    s[Lead(s)..End(s)]
  }

  /** The trimmed string is empty exactly when the input is all white space,
      and a string with no white space at its ends is its own trim. */
  lemma TrimBlank(s: string)
    ensures Trim(s) == [] <==> forall k :: 0 <= k < |s| ==> IsSpace(s[k])
    ensures s == [] || (!IsSpace(s[0]) && !IsSpace(s[|s| - 1])) ==> Trim(s) == s
  {
    if Lead(s) < |s| {
      assert !IsSpace(s[Lead(s)]);
    }
  }

  /** Trimming twice is trimming once. */
  lemma TrimIdempotent(s: string)
    ensures Trim(Trim(s)) == Trim(s)
  {
    TrimBlank(Trim(s));
  }

  /** What one token contributes to `parseInput`: its number, or nothing when
      `parseInt(token.trim())` is NaN. */
  function Contribution(token: string, parse: string -> Option<int>): (r: seq<int>)
    ensures |r| <= 1
    ensures r == [] <==> parse(Trim(token)).None?
    ensures r != [] ==> parse(Trim(token)) == Some(r[0])
  {
    match parse(Trim(token))
    case Some(v) => [v]
    case None => []
  }

  /** `.map(s => parseInt(s.trim())).filter(n => !isNaN(n))` over a token list. */
  function Parsed(tokens: seq<string>, parse: string -> Option<int>): (r: seq<int>)
    ensures |r| <= |tokens|
    ensures forall x :: x in r ==> exists t :: t in tokens && parse(Trim(t)) == Some(x)
  {
    if tokens == [] then []
    else
      var front := tokens[..|tokens| - 1];
      var r := Parsed(front, parse) + Contribution(tokens[|tokens| - 1], parse);
      assert forall t :: t in front ==> t in tokens;
      r
  }

  /** Token order is kept: the numbers of a + b are the numbers of a followed
      by those of b. */
  lemma {:induction false} ParsedConcat(a: seq<string>, b: seq<string>, parse: string -> Option<int>)
    ensures Parsed(a + b, parse) == Parsed(a, parse) + Parsed(b, parse)
    decreases |b|
  {
    if b == [] {
      assert a + b == a;
    } else {
      var front := b[..|b| - 1];
      assert (a + b)[..|a + b| - 1] == a + front;
      ParsedConcat(a, front, parse);
    }
  }

  /** When every token parses, each token contributes its number at its own
      position. */
  lemma {:induction false} ParsedEach(tokens: seq<string>, parse: string -> Option<int>)
    requires forall k :: 0 <= k < |tokens| ==> parse(Trim(tokens[k])).Some?
    ensures |Parsed(tokens, parse)| == |tokens|
    ensures forall k :: 0 <= k < |tokens| ==> Parsed(tokens, parse)[k] == parse(Trim(tokens[k])).value
    decreases |tokens|
  {
    if tokens != [] {
      var front := tokens[..|tokens| - 1];
      assert forall k :: 0 <= k < |front| ==> front[k] == tokens[k];
      ParsedEach(front, parse);
      var p := Parsed(front, parse);
      var r := Parsed(tokens, parse);
      assert r == p + [parse(Trim(tokens[|tokens| - 1])).value];
      forall k | 0 <= k < |tokens| ensures r[k] == parse(Trim(tokens[k])).value {
        if k < |front| {
          assert r[k] == p[k];
        }
      }
    }
  }

  /** When no token parses, nothing is returned. */
  lemma {:induction false} ParsedNone(tokens: seq<string>, parse: string -> Option<int>)
    requires forall k :: 0 <= k < |tokens| ==> parse(Trim(tokens[k])).None?
    ensures Parsed(tokens, parse) == []
    decreases |tokens|
  {
    if tokens != [] {
      var front := tokens[..|tokens| - 1];
      assert forall k :: 0 <= k < |front| ==> front[k] == tokens[k];
      ParsedNone(front, parse);
    }
  }

  /** `parseInput` of src/pages/Visualizer.tsx: split on commas, parse each
      trimmed token, keep the numbers. */
  function ParseInput(input: string, parse: string -> Option<int>): (r: seq<int>)
    ensures |r| <= |Split(input, ',')|
    ensures forall x :: x in r ==> exists t :: t in Split(input, ',') && parse(Trim(t)) == Some(x)
  {
    Parsed(Split(input, ','), parse)
  }

  /** Joining comma-free chunks and parsing gives the chunks' numbers in
      order: the input is read token by token, left to right. */
  lemma ParseInputJoined(chunks: seq<string>, parse: string -> Option<int>)
    requires |chunks| >= 1
    requires forall k :: 0 <= k < |chunks| ==> ',' !in chunks[k]
    ensures ParseInput(Join(chunks, ','), parse) == Parsed(chunks, parse)
  {
    JoinSplit(chunks, ',');
  }
}
