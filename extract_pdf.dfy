/** The upload route of the PDF scraper (app/api/extract-pdf/route.ts): the
    missing-file guard and the three heuristics that turn the decoded upload
    into text, tried in order until one gives a non-empty string. */
module ExtractPdf {
  import opened JsRuntime
  import opened JsRegExp

  const LPAREN: CodeUnit := 0x28
  const RPAREN: CodeUnit := 0x29
  /** "stream" */
  const STREAM: JsString := [0x73, 0x74, 0x72, 0x65, 0x61, 0x6D]
  /** "endstream" */
  const ENDSTREAM: JsString := [0x65, 0x6E, 0x64, 0x73, 0x74, 0x72, 0x65, 0x61, 0x6D]

  // ---------------------------------------------------------------------------
  // Heuristic 1: /\((.*?)\)/g, delimiters stripped, short contents dropped

  /** `s[p..e]` has the shape of `\((.*?)\)`: an opening parenthesis, units
      that are not line terminators, a closing parenthesis. */
  ghost predicate ParenShape(s: JsString, p: nat, e: nat)
  {
    && p + 2 <= e <= |s|
    && s[p] == LPAREN && s[e - 1] == RPAREN
    && forall m | p < m < e - 1 :: !IsLineTerminator(s[m])
  }

  /** The first closing parenthesis from `j` on, unless a line terminator
      comes before it. */
  function CloseParen(s: JsString, j: nat): (r: Option<nat>)
    requires j <= |s|
    ensures r.Some? ==> j <= r.value < |s| && s[r.value] == RPAREN
    ensures r.Some? ==> forall m | j <= m < r.value :: s[m] != RPAREN && !IsLineTerminator(s[m])
    ensures r.None? ==> forall k | j <= k < |s| && s[k] == RPAREN ::
                          exists m :: j <= m < k && IsLineTerminator(s[m])
    decreases |s| - j
  {
    if j == |s| then None
    else if s[j] == RPAREN then Some(j)
    else if IsLineTerminator(s[j]) then None
    else CloseParen(s, j + 1)
  }

  /** Where the pattern, tried at `p`, ends. The lazy `.*?` stops at the
      first closing parenthesis, so the match is the shortest text of the
      pattern's shape at `p`, and there is none when no text has that shape. */
  function ParenMatchAt(s: JsString, p: nat): (r: Option<nat>)
    ensures r.Some? ==> ParenShape(s, p, r.value)
    ensures r.Some? ==> forall e | p + 2 <= e < r.value :: !ParenShape(s, p, e)
    ensures r.None? ==> forall e: nat :: !ParenShape(s, p, e)
  {
    if p < |s| && s[p] == LPAREN then
      match CloseParen(s, p + 1)
      case Some(k) => Some(k + 1)
      case None =>
        NoCloseNoMatch(s, p);
        None
    else None
  }

  /** Without a closing parenthesis on the rest of the line, no text at `p`
      has the pattern's shape. */
  lemma NoCloseNoMatch(s: JsString, p: nat)
    requires p < |s| && CloseParen(s, p + 1).None?
    ensures forall e: nat :: !ParenShape(s, p, e)
  {
    forall e: nat | p + 2 <= e <= |s|
      ensures !ParenShape(s, p, e)
    {
      if s[e - 1] == RPAREN {
        var m :| p + 1 <= m < e - 1 && IsLineTerminator(s[m]);
      }
    }
  }

  function ParenPattern(s: JsString): nat -> Option<nat>
  {
    (p: nat) => ParenMatchAt(s, p)
  }

  /** `text.match(/\((.*?)\)/g)`, as the spans of the matches (none where
      the source gets null). */
  function ParenSpans(s: JsString): (r: seq<Span>)
    ensures Ordered(r, 0, |s|)
    ensures IsGlobalScan(|s|, ParenPattern(s), 0, r)
    ensures forall k | 0 <= k < |r| :: ParenShape(s, r[k].start, r[k].end)
  {
    GlobalSpansIsScan(|s|, ParenPattern(s), 0);
    GlobalSpans(|s|, ParenPattern(s), 0)
  }

  /** JavaScript's `slice(1, -1)`. */
  function SliceInner(m: JsString): JsString
  {
    if |m| >= 2 then m[1..|m| - 1] else []
  }

  /** `.map(match => match.slice(1, -1))`: each match without its parentheses,
      in the order the matches were found. */
  function ParenContents(s: JsString): (r: seq<JsString>)
    ensures |r| == |ParenSpans(s)|
    ensures forall k | 0 <= k < |r| :: r[k] == s[ParenSpans(s)[k].start + 1..ParenSpans(s)[k].end - 1]
  {
    InnerSlices(s, ParenSpans(s))
  }

  /** `slice(1, -1)` of the texts at spans that each cover two units or more. */
  function InnerSlices(s: JsString, spans: seq<Span>): (r: seq<JsString>)
    requires Ordered(spans, 0, |s|)
    requires forall k | 0 <= k < |spans| :: spans[k].start + 2 <= spans[k].end
    ensures |r| == |spans|
    ensures forall k | 0 <= k < |r| :: r[k] == s[spans[k].start + 1..spans[k].end - 1]
  {
    var matches := Slices(s, spans);
    InnerOfSlices(s, spans, matches);
    seq(|matches|, k requires 0 <= k < |matches| => SliceInner(matches[k]))
  }

  /** `slice(1, -1)` of the text at a span is the text strictly inside it. */
  lemma InnerOfSlices(s: JsString, spans: seq<Span>, matches: seq<JsString>)
    requires |matches| == |spans|
    requires forall k | 0 <= k < |spans| :: spans[k].start + 2 <= spans[k].end <= |s|
    requires forall k | 0 <= k < |spans| :: matches[k] == s[spans[k].start..spans[k].end]
    ensures forall k | 0 <= k < |spans| :: SliceInner(matches[k]) == s[spans[k].start + 1..spans[k].end - 1]
  {
    forall k | 0 <= k < |spans|
      ensures SliceInner(matches[k]) == s[spans[k].start + 1..spans[k].end - 1]
    {
      var a, b := spans[k].start, spans[k].end;
      assert |matches[k]| == b - a;
      assert matches[k][1..b - a - 1] == s[a + 1..b - 1];
    }
  }

  /** No content holds a closing parenthesis or a line terminator. */
  lemma ParenContentsOneLine(s: JsString)
    ensures forall k | 0 <= k < |ParenContents(s)| :: RPAREN !in ParenContents(s)[k]
    ensures forall k, c | 0 <= k < |ParenContents(s)| && c in ParenContents(s)[k] :: !IsLineTerminator(c)
  {
  }

  predicate LongerThanTwo(t: JsString)
  {
    |t| > 2
  }

  /** `.filter(text => text.length > 2)`. */
  function ParenKept(s: JsString): seq<JsString>
  {
    Filter(ParenContents(s), LongerThanTwo)
  }

  /** `.join('\n')`: the first heuristic's text. */
  function ParenHeuristic(s: JsString): JsString
  {
    Join(ParenKept(s), [LF])
  }

  /** The lines of a non-empty result are exactly the kept contents, in match
      order: each at least three units, without a closing parenthesis or a
      line terminator. */
  lemma ParenHeuristicLines(s: JsString)
    ensures forall k | 0 <= k < |ParenKept(s)| ::
      |ParenKept(s)[k]| >= 3 && RPAREN !in ParenKept(s)[k] && LF !in ParenKept(s)[k]
    ensures ParenHeuristic(s) != [] ==> Split(ParenHeuristic(s), LF) == ParenKept(s)
    ensures IsSubsequence(ParenKept(s), ParenContents(s))
  {
    var kept := ParenKept(s);
    KeptAreOneLine(s);
    if ParenHeuristic(s) != [] {
      assert kept != [];
      JoinThenSplit(kept, LF);
    }
  }

  /** Each kept content is longer than two units and lies on one line. */
  lemma KeptAreOneLine(s: JsString)
    ensures forall k | 0 <= k < |ParenKept(s)| ::
      |ParenKept(s)[k]| >= 3 && RPAREN !in ParenKept(s)[k] && LF !in ParenKept(s)[k]
  {
    var contents := ParenContents(s);
    var kept := Filter(contents, LongerThanTwo);
    ParenContentsOneLine(s);
    forall k | 0 <= k < |kept|
      ensures |kept[k]| >= 3 && RPAREN !in kept[k] && LF !in kept[k]
    {
      assert LongerThanTwo(kept[k]);
      assert kept[k] in contents;
      var j :| 0 <= j < |contents| && contents[j] == kept[k];
      assert IsLineTerminator(LF);
    }
  }

  /** The first heuristic gives nothing exactly when every match has at most
      two units between its parentheses (or there is no match); only then do
      the later heuristics run. */
  lemma ParenHeuristicEmptyIff(s: JsString)
    ensures ParenHeuristic(s) == [] <==>
      forall k | 0 <= k < |ParenContents(s)| :: |ParenContents(s)[k]| <= 2
  {
  }

  // ---------------------------------------------------------------------------
  // Heuristic 2: /stream\s+([\s\S]*?)\s+endstream/g, markers deleted, sanitised

  /** `s[p..e]` has the shape of `stream\s+([\s\S]*?)\s+endstream`: "stream",
      whitespace, anything, whitespace, "endstream". */
  ghost predicate StreamShape(s: JsString, p: nat, e: nat)
  {
    && p + 17 <= e <= |s|
    && StartsAt(s, p, STREAM) && IsWhiteSpace(s[p + 6])
    && IsWhiteSpace(s[e - 10]) && StartsAt(s, e - 9, ENDSTREAM)
  }

  /** "endstream" at `e`, right after a whitespace unit. */
  predicate EndstreamAfterSpace(s: JsString, e: nat)
  {
    1 <= e && StartsAt(s, e, ENDSTREAM) && IsWhiteSpace(s[e - 1])
  }

  /** The first "endstream" from `j` on that follows a whitespace unit. */
  function FindEndstream(s: JsString, j: nat): (r: Option<nat>)
    ensures r.Some? ==> j <= r.value && EndstreamAfterSpace(s, r.value)
    ensures r.Some? ==> forall e | j <= e < r.value :: !EndstreamAfterSpace(s, e)
    ensures r.None? ==> forall e | j <= e :: !EndstreamAfterSpace(s, e)
    decreases |s| - j
  {
    if j + 9 > |s| then None
    else if EndstreamAfterSpace(s, j) then Some(j)
    else FindEndstream(s, j + 1)
  }

  /** `s[p..e]` has the pattern's shape with the first `\s+` taking exactly
      `n1` units: "stream", `n1` whitespace units, then at least one unit up
      to a whitespace unit followed by "endstream" ending at `e`. */
  ghost predicate StreamSplit(s: JsString, p: nat, n1: nat, e: nat)
  {
    && 1 <= n1 && p + 6 + n1 + 10 <= e <= |s|
    && StartsAt(s, p, STREAM)
    && (forall k | p + 6 <= k < p + 6 + n1 :: IsWhiteSpace(s[k]))
    && IsWhiteSpace(s[e - 10]) && StartsAt(s, e - 9, ENDSTREAM)
  }

  /** The split a backtracking engine settles on: the greedy first `\s+`
      gives back units only while no match is possible, so `n1` is the
      largest count for which some end exists, and the lazy middle then
      stops at the earliest such end. */
  ghost predicate StreamPick(s: JsString, p: nat, n1: nat, e: nat)
  {
    && StreamSplit(s, p, n1, e)
    && (forall n2: nat, e2: nat | n2 > n1 :: !StreamSplit(s, p, n2, e2))
    && (forall e2: nat | e2 < e :: !StreamSplit(s, p, n1, e2))
  }

  /** Where the pattern, tried at `p`, ends. The engine backtracks: the first
      `\s+` takes the whole whitespace run after "stream", and the lazy middle
      then stops at the first "endstream" after whitespace that begins past
      that run. Only when there is none does the first `\s+` give back units,
      which helps only when the run has two or more units and "endstream"
      follows it directly. The match exists exactly when some text of the
      pattern's shape starts at `p`, and it is the engine's pick. */
  function StreamMatchAt(s: JsString, p: nat): (r: Option<nat>)
    ensures r.Some? ==> StreamShape(s, p, r.value)
    ensures r.Some? ==> exists n1: nat :: StreamPick(s, p, n1, r.value)
    ensures r.None? ==> forall e: nat :: !StreamShape(s, p, e)
  {
    if !StartsAt(s, p, STREAM) then None
    else
      var run := WsRun(s, p + 6);
      if run == 0 then None
      else
        var q := p + 6 + run;
        match FindEndstream(s, q + 1)
        case Some(e) =>
          assert s[e - 1] == s[e + 9 - 10];
          PickAfterRun(s, p, e);
          Some(e + 9)
        case None =>
          StreamShapeEnds(s, p, q);
          if run >= 2 && StartsAt(s, q, ENDSTREAM) then
            PickInsideRun(s, p);
            Some(q + 9)
          else None
  }

  /** With an "endstream" after whitespace past the whole run, the first
      `\s+` keeps the run and the earliest such "endstream" ends the match. */
  lemma PickAfterRun(s: JsString, p: nat, e: nat)
    requires StartsAt(s, p, STREAM) && WsRun(s, p + 6) > 0
    requires FindEndstream(s, p + 6 + WsRun(s, p + 6) + 1) == Some(e)
    ensures StreamPick(s, p, WsRun(s, p + 6), e + 9)
  {
    var run := WsRun(s, p + 6);
    var q := p + 6 + run;
    assert s[e - 1] == s[e + 9 - 10];
    forall n2: nat, e2: nat | n2 > run
      ensures !StreamSplit(s, p, n2, e2)
    {
      if q < |s| {
        assert !IsWhiteSpace(s[q]);
      }
    }
    forall e2: nat | e2 < e + 9
      ensures !StreamSplit(s, p, run, e2)
    {
      if q + 10 <= e2 <= |s| {
        assert s[e2 - 9 - 1] == s[e2 - 10];
        assert !EndstreamAfterSpace(s, e2 - 9);
      }
    }
  }

  /** With no "endstream" after whitespace past the run, but one right at
      its end, the first `\s+` gives back exactly one unit. */
  lemma PickInsideRun(s: JsString, p: nat)
    requires StartsAt(s, p, STREAM) && WsRun(s, p + 6) >= 2
    requires FindEndstream(s, p + 6 + WsRun(s, p + 6) + 1).None?
    requires StartsAt(s, p + 6 + WsRun(s, p + 6), ENDSTREAM)
    ensures StreamPick(s, p, WsRun(s, p + 6) - 1, p + 6 + WsRun(s, p + 6) + 9)
  {
    var run := WsRun(s, p + 6);
    var q := p + 6 + run;
    assert s[q] == s[q..q + 9][0] == 0x65;
    forall n2: nat, e2: nat | n2 > run
      ensures !StreamSplit(s, p, n2, e2)
    {
      assert !IsWhiteSpace(s[q]);
    }
    forall e2: nat
      ensures !StreamSplit(s, p, run, e2)
    {
      if q + 10 <= e2 <= |s| {
        assert s[e2 - 9 - 1] == s[e2 - 10];
        assert !EndstreamAfterSpace(s, e2 - 9);
      }
    }
  }

  /** A text of the pattern's shape at `p` ends with an "endstream" after
      whitespace; past the whitespace run that ends at `q` it is found by
      FindEndstream, inside it the "endstream" must start at `q` itself. */
  lemma StreamShapeEnds(s: JsString, p: nat, q: nat)
    requires StartsAt(s, p, STREAM) && p + 6 < q <= |s|
    requires forall k | p + 6 <= k < q :: IsWhiteSpace(s[k])
    ensures forall e: nat | StreamShape(s, p, e) ::
      EndstreamAfterSpace(s, e - 9) && (e - 9 >= q + 1 || (e - 9 == q && q >= p + 8))
  {
    forall e: nat | StreamShape(s, p, e)
      ensures EndstreamAfterSpace(s, e - 9) && (e - 9 >= q + 1 || (e - 9 == q && q >= p + 8))
    {
      var d := e - 9;
      assert s[d] == s[d..d + 9][0] == 0x65;
      assert s[d - 1] == s[e - 10];
    }
  }

  function StreamPattern(s: JsString): nat -> Option<nat>
  {
    (p: nat) => StreamMatchAt(s, p)
  }

  /** `text.match(/stream\s+([\s\S]*?)\s+endstream/g)`, as spans. */
  function StreamSpans(s: JsString): (r: seq<Span>)
    ensures Ordered(r, 0, |s|)
    ensures IsGlobalScan(|s|, StreamPattern(s), 0, r)
    ensures forall k | 0 <= k < |r| :: StreamShape(s, r[k].start, r[k].end)
  {
    GlobalSpansIsScan(|s|, StreamPattern(s), 0);
    GlobalSpans(|s|, StreamPattern(s), 0)
  }

  /** `s[p..e]` has the shape of `stream\s+|\s+endstream`. */
  ghost predicate MarkerShape(t: JsString, p: nat, e: nat)
  {
    || (StartsAt(t, p, STREAM) && p + 6 < e <= |t| && forall k | p + 6 <= k < e :: IsWhiteSpace(t[k]))
    || (p + 9 < e && StartsAt(t, e - 9, ENDSTREAM) && forall k | p <= k < e - 9 :: IsWhiteSpace(t[k]))
  }

  /** Where `stream\s+|\s+endstream`, tried at `p`, ends: the first
      alternative wins, and both `\s+` take the whole whitespace run, so the
      match is the longest text of the pattern's shape at `p`. */
  function MarkerMatchAt(t: JsString, p: nat): (r: Option<nat>)
    ensures r.Some? ==> MarkerShape(t, p, r.value)
    ensures r.Some? ==> forall e: nat | MarkerShape(t, p, e) :: e <= r.value
    ensures r.None? ==> forall e: nat :: !MarkerShape(t, p, e)
  {
    if StartsAt(t, p, STREAM) && WsRun(t, p + 6) > 0 then
      OpeningMarkerLongest(t, p);
      Some(p + 6 + WsRun(t, p + 6))
    else if p < |t| && IsWhiteSpace(t[p]) && StartsAt(t, p + WsRun(t, p), ENDSTREAM) then
      ClosingMarkerLongest(t, p);
      Some(p + WsRun(t, p) + 9)
    else
      MarkerShapeFound(t, p);
      None
  }

  /** After "stream", no marker-shaped text runs past the whitespace run. */
  lemma OpeningMarkerLongest(t: JsString, p: nat)
    requires StartsAt(t, p, STREAM)
    ensures forall e: nat | MarkerShape(t, p, e) :: e <= p + 6 + WsRun(t, p + 6)
  {
    var q := p + 6 + WsRun(t, p + 6);
    assert t[p] == t[p..p + 6][0] == 0x73;
    if q < |t| {
      assert !IsWhiteSpace(t[q]);
    }
  }

  /** Before "endstream", no marker-shaped text runs past the one that
      starts right after the whitespace run. */
  lemma ClosingMarkerLongest(t: JsString, p: nat)
    requires p < |t| && IsWhiteSpace(t[p])
    ensures forall e: nat | MarkerShape(t, p, e) :: e <= p + WsRun(t, p) + 9
  {
    var q := p + WsRun(t, p);
    forall e: nat | MarkerShape(t, p, e)
      ensures e <= q + 9
    {
      if q < |t| {
        assert !IsWhiteSpace(t[q]);
      }
      if 9 <= e <= |t| && StartsAt(t, e - 9, ENDSTREAM) {
        assert t[e - 9] == t[e - 9..e][0] == 0x65;
      }
    }
  }

  /** A text of the marker pattern's shape at `p` is found by one of the two
      alternatives as MarkerMatchAt tries them. */
  lemma MarkerShapeFound(t: JsString, p: nat)
    ensures forall e: nat | MarkerShape(t, p, e) ::
      || (StartsAt(t, p, STREAM) && WsRun(t, p + 6) > 0)
      || (p < |t| && IsWhiteSpace(t[p]) && StartsAt(t, p + WsRun(t, p), ENDSTREAM))
  {
    forall e: nat | MarkerShape(t, p, e)
      ensures || (StartsAt(t, p, STREAM) && WsRun(t, p + 6) > 0)
              || (p < |t| && IsWhiteSpace(t[p]) && StartsAt(t, p + WsRun(t, p), ENDSTREAM))
    {
      if StartsAt(t, p, STREAM) && p + 6 < e <= |t| && IsWhiteSpace(t[p + 6]) {
        assert WsRun(t, p + 6) > 0;
      } else {
        var d := e - 9;
        assert t[d] == t[d..d + 9][0] == 0x65;
        assert IsWhiteSpace(t[p]);
        assert WsRun(t, p) == d - p;
      }
    }
  }

  function MarkerPattern(t: JsString): nat -> Option<nat>
  {
    (p: nat) => MarkerMatchAt(t, p)
  }

  /** `match.replace(/stream\s+|\s+endstream/g, '')`. */
  function StripMarkers(t: JsString): (r: JsString)
    ensures IsSubsequence(r, t)
  {
    assert t[0..] == t;
    Erase(t, GlobalSpans(|t|, MarkerPattern(t), 0), 0)
  }

  /** From a unit that is not whitespace, in a text whose last unit is not
      whitespace either, the marker scan leaves something: either no marker
      starts at that unit and it stays, or "stream" and its whitespace run
      go, and the run ends at another such unit before the last. */
  lemma {:induction false} MarkersLeaveAUnit(t: JsString, j: nat)
    requires j < |t| && !IsWhiteSpace(t[j]) && !IsWhiteSpace(t[|t| - 1])
    ensures Erase(t, GlobalSpans(|t|, MarkerPattern(t), j), j) != []
    decreases |t| - j
  {
    var at := MarkerPattern(t);
    var spans := GlobalSpans(|t|, at, j);
    if at(j).None? {
      assert spans == GlobalSpans(|t|, at, j + 1);
      EraseKeepsFirst(t, spans, j);
    } else {
      var e := at(j).value;
      OpeningMarkerEnd(t, j);
      assert spans == [Span(j, e)] + GlobalSpans(|t|, at, e);
      EraseSkipsFirst(t, j, e, GlobalSpans(|t|, at, e));
      MarkersLeaveAUnit(t, e);
    }
  }

  /** A marker that starts at a unit other than whitespace is "stream" and
      its run, which ends at a unit that is not whitespace. */
  lemma OpeningMarkerEnd(t: JsString, j: nat)
    requires j < |t| && !IsWhiteSpace(t[j]) && !IsWhiteSpace(t[|t| - 1])
    requires MarkerMatchAt(t, j).Some?
    ensures j < MarkerMatchAt(t, j).value < |t|
    ensures !IsWhiteSpace(t[MarkerMatchAt(t, j).value])
  {
    var e := MarkerMatchAt(t, j).value;
    assert e == j + 6 + WsRun(t, j + 6);
    assert IsWhiteSpace(t[e - 1]);
  }

  /** When no span starts at `j`, the unit there is kept. */
  lemma EraseKeepsFirst(t: JsString, spans: seq<Span>, j: nat)
    requires j < |t| && Ordered(spans, j + 1, |t|)
    ensures Erase(t, spans, j) != []
  {
    if |spans| > 0 {
      assert t[j..spans[0].start] != [];
    }
  }

  /** Deleting a first span that starts right at `j` leaves what deleting
      the rest from its end leaves. */
  lemma EraseSkipsFirst(t: JsString, j: nat, e: nat, rest: seq<Span>)
    requires j < e <= |t| && Ordered([Span(j, e)] + rest, j, |t|)
    ensures Ordered(rest, e, |t|)
    ensures Erase(t, [Span(j, e)] + rest, j) == Erase(t, rest, e)
  {
    var spans := [Span(j, e)] + rest;
    assert spans[0] == Span(j, e) && spans[1..] == rest;
    forall k | 0 <= k < |rest|
      ensures e <= rest[k].start
    {
      assert spans[0].end <= spans[k + 1].start;
      assert spans[k + 1] == rest[k];
    }
  }

  /** The units the class `[\x20-\x7E\n]` matches. */
  predicate IsPrintableOrNewline(c: CodeUnit)
  {
    0x20 <= c <= 0x7E || c == LF
  }

  /** `replace(/[^\x20-\x7E\n]/g, ' ')`: every unit outside printable ASCII,
      other than a newline, becomes a space, and nothing moves. */
  function Sanitize(s: JsString): (r: JsString)
    ensures |r| == |s|
    ensures forall k | 0 <= k < |r| :: IsPrintableOrNewline(r[k])
    ensures forall k | 0 <= k < |s| && IsPrintableOrNewline(s[k]) :: r[k] == s[k]
    ensures forall k | 0 <= k < |s| && !IsPrintableOrNewline(s[k]) :: r[k] == SPACE
    decreases |s|
  {
    if |s| == 0 then []
    else [if IsPrintableOrNewline(s[0]) then s[0] else SPACE] + Sanitize(s[1..])
  }

  /** Sanitising leaves a string alone exactly when it is already clean, so
      sanitising twice is sanitising once. */
  lemma SanitizeFixedPoints(s: JsString)
    ensures Sanitize(s) == s <==> forall k | 0 <= k < |s| :: IsPrintableOrNewline(s[k])
    ensures Sanitize(Sanitize(s)) == Sanitize(s)
  {
  }

  /** Sanitising works unit by unit, so it distributes over concatenation. */
  lemma SanitizeAppend(a: JsString, b: JsString)
    ensures Sanitize(a + b) == Sanitize(a) + Sanitize(b)
  {
    var l, r := Sanitize(a + b), Sanitize(a) + Sanitize(b);
    forall k | 0 <= k < |l|
      ensures l[k] == r[k]
    {
      if k < |a| {
        assert (a + b)[k] == a[k];
      } else {
        assert (a + b)[k] == b[k - |a|];
      }
    }
  }

  /** Clean text sanitises to itself. */
  lemma SanitizeClean(s: JsString)
    requires forall x | x in s :: IsPrintableOrNewline(x)
    ensures Sanitize(s) == s
  {
    SanitizeFixedPoints(s);
    assert forall k | 0 <= k < |s| :: s[k] in s;
  }

  /** The text one stream match contributes. */
  function StreamRegion(m: JsString): JsString
  {
    Sanitize(StripMarkers(m))
  }

  /** A stream match keeps at least one unit once its markers are deleted:
      it starts with "s" and ends with "m", neither of them whitespace. */
  lemma StreamRegionNonEmpty(m: JsString)
    requires |m| >= 9 && StartsAt(m, 0, STREAM) && StartsAt(m, |m| - 9, ENDSTREAM)
    ensures StreamRegion(m) != []
  {
    assert m[0] == m[0..6][0] == 0x73;
    assert m[|m| - 1] == m[|m| - 9..|m|][8] == 0x6D;
    MarkersLeaveAUnit(m, 0);
  }

  /** The second heuristic's text: the regions of all matches, joined by
      newlines (the empty string where the source gets null). */
  function StreamHeuristic(s: JsString): JsString
  {
    var matches := Slices(s, StreamSpans(s));
    Join(seq(|matches|, k requires 0 <= k < |matches| => StreamRegion(matches[k])), [LF])
  }

  /** When the whole input is the one stream match, the heuristic's text is
      that match's region. */
  lemma WholeStreamMatch(s: JsString)
    requires StreamSpans(s) == [Span(0, |s|)]
    ensures StreamHeuristic(s) == StreamRegion(s)
  {
    var matches := Slices(s, StreamSpans(s));
    assert matches[0] == s[0..|s|] == s;
    assert matches == [s];
  }

  /** No stream match leaves an empty region. */
  lemma MatchRegionsNonEmpty(s: JsString)
    ensures forall k | 0 <= k < |StreamSpans(s)| :: StreamRegion(Slices(s, StreamSpans(s))[k]) != []
  {
    var spans := StreamSpans(s);
    var matches := Slices(s, spans);
    forall k | 0 <= k < |spans|
      ensures StreamRegion(matches[k]) != []
    {
      MatchRegionNonEmpty(s, spans[k].start, spans[k].end);
    }
  }

  /** The text of one match, `s[p..e]` of the stream pattern's shape, leaves a
      non-empty region. */
  lemma MatchRegionNonEmpty(s: JsString, p: nat, e: nat)
    requires StreamShape(s, p, e)
    ensures StreamRegion(s[p..e]) != []
  {
    var m := s[p..e];
    assert m[0..6] == s[p..p + 6];
    assert m[|m| - 9..|m|] == s[e - 9..e];
    StreamRegionNonEmpty(m);
  }

  /** The second heuristic's text is clean: printable ASCII and newlines only,
      and it is non-empty exactly when the pattern matched somewhere, since
      every match leaves a non-empty region. */
  lemma StreamHeuristicClean(s: JsString)
    ensures forall c | c in StreamHeuristic(s) :: IsPrintableOrNewline(c)
    ensures StreamHeuristic(s) != [] <==> StreamSpans(s) != []
  {
    var matches := Slices(s, StreamSpans(s));
    var regions := seq(|matches|, k requires 0 <= k < |matches| => StreamRegion(matches[k]));
    MatchRegionsNonEmpty(s);
    JoinEmpty(regions, [LF]);
    forall k, c | 0 <= k < |regions| && c in regions[k]
      ensures IsPrintableOrNewline(c)
    {
      var i :| 0 <= i < |regions[k]| && regions[k][i] == c;
    }
    JoinKeeps(regions, [LF], IsPrintableOrNewline);
  }

  // ---------------------------------------------------------------------------
  // Heuristic 3 and the chain

  /** The first non-empty result of the three heuristics; the global fallback
      sanitises the whole text. */
  function ExtractText(s: JsString): JsString
  {
    var paren := ParenHeuristic(s);
    if paren != [] then paren
    else
      var stream := StreamHeuristic(s);
      if stream != [] then stream
      else Sanitize(s)
  }

  /** The chain gives some text for every non-empty input, and the empty text
      only for the empty input. */
  lemma ExtractTextEmptyIff(s: JsString)
    ensures ExtractText(s) == [] <==> s == []
  {
  }

  /** When some match of the first pattern keeps more than two units, the
      first heuristic wins and the lines of the result are its kept contents. */
  lemma ExtractTextFromParens(s: JsString)
    requires exists k | 0 <= k < |ParenContents(s)| :: |ParenContents(s)[k]| > 2
    ensures ExtractText(s) == ParenHeuristic(s)
    ensures Split(ExtractText(s), LF) == ParenKept(s)
  {
    ParenHeuristicEmptyIff(s);
    ParenHeuristicLines(s);
  }

  /** Otherwise the result is clean; when the stream pattern matches nowhere
      either, it is the whole input sanitised: same length, same units at
      every printable or newline position, spaces elsewhere. */
  lemma ExtractTextAfterParens(s: JsString)
    requires forall k | 0 <= k < |ParenContents(s)| :: |ParenContents(s)[k]| <= 2
    ensures forall c | c in ExtractText(s) :: IsPrintableOrNewline(c)
    ensures StreamSpans(s) != [] ==> ExtractText(s) == StreamHeuristic(s)
    ensures StreamSpans(s) == [] ==> ExtractText(s) == Sanitize(s) && |ExtractText(s)| == |s|
  {
    ParenHeuristicEmptyIff(s);
    StreamHeuristicClean(s);
    var r := ExtractText(s);
    if StreamHeuristic(s) == [] {
      forall c | c in r
        ensures IsPrintableOrNewline(c)
      {
        var i :| 0 <= i < |r| && r[i] == c;
      }
    }
  }

  // ---------------------------------------------------------------------------
  // The route

  datatype Body = Text(text: JsString) | Error(error: string)
  datatype Response = Json(status: nat, body: Body)

  /** POST /api/extract-pdf on the decoded upload, None when the form has no
      file: a 400 error then, otherwise a 200 response with the extracted
      text, which is empty only for an empty upload. */
  function Post(file: Option<JsString>): (r: Response)
    ensures file.None? <==> r.status == 400
    ensures file.None? ==> r.body == Error("No file provided")
    ensures file.Some? ==> r.status == 200 && r.body == Text(ExtractText(file.value))
    ensures file.Some? ==> (r.body.text == [] <==> file.value == [])
  {
    match file
    case None => Json(400, Error("No file provided"))
    case Some(text) =>
      ExtractTextEmptyIff(text);
      Json(200, Text(ExtractText(text)))
  }
}
