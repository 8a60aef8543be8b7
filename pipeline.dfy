/** The upload flow end to end (handleProcess in app/page.tsx): the route's
    extracted text goes through the prompt filter and each prompt is paired
    with its enhanced version, and what the route makes of three families of
    files: parenthesised groups, one stream object, and a stream object whose
    keywords are glued to their neighbours. */
module Pipeline {
  import opened JsRuntime
  import opened JsRegExp
  import opened ExtractPdf
  import opened Page

  // ---------------------------------------------------------------------------
  // From the upload to the pairs

  /** handleProcess after a successful upload whose parenthesised contents
      win: the page's prompts are the trimmed kept contents that pass its two
      filters, in match order, and each is paired with its enhanced version.
      So the number of pairs is the number of runs that pass the length and
      word thresholds, and each original is that run's trimmed text. */
  lemma UploadToPairs(file: JsString, enhance: (nat, JsString) -> JsString)
    requires exists k | 0 <= k < |ParenContents(file)| :: |ParenContents(file)[k]| > 2
    ensures Post(Some(file)).body.text == ParenHeuristic(file)
    ensures ExtractPrompts(Post(Some(file)).body.text)
            == Filter(Filter(TrimAll(ParenKept(file)), IsCandidate), IsPrompt)
    ensures var prompts := Filter(Filter(TrimAll(ParenKept(file)), IsCandidate), IsPrompt);
            var pairs := PairWithEnhanced(ExtractPrompts(Post(Some(file)).body.text), enhance);
            && |pairs| == |prompts|
            && forall k | 0 <= k < |pairs| ::
                 pairs[k].original == prompts[k] && pairs[k].enhanced == enhance(k, prompts[k])
  {
    var text := Post(Some(file)).body.text;
    ExtractTextFromParens(file);
    assert TrimmedLines(text) == TrimAll(ParenKept(file));
  }

  // ---------------------------------------------------------------------------
  // A file of parenthesised groups

  /** A word the parenthesis pattern can enclose: no closing parenthesis and
      no line terminator. */
  predicate GroupWord(w: JsString)
  {
    RPAREN !in w && forall c | c in w :: !IsLineTerminator(c)
  }

  /** Each word in parentheses, one group right after the other. */
  function Groups(words: seq<JsString>): JsString
  {
    if |words| == 0 then [] else [LPAREN] + words[0] + [RPAREN] + Groups(words[1..])
  }

  /** Grouping distributes over concatenation of the word lists. */
  lemma {:induction false} GroupsAppend(a: seq<JsString>, b: seq<JsString>)
    ensures Groups(a + b) == Groups(a) + Groups(b)
    decreases |a|
  {
    if |a| == 0 {
      assert a + b == b;
    } else {
      assert (a + b)[0] == a[0] && (a + b)[1..] == a[1..] + b;
      GroupsAppend(a[1..], b);
    }
  }

  /** The group of word `k` lies between the groups of the words before it
      and those after it. */
  lemma {:induction false} GroupAt(words: seq<JsString>, k: nat)
    requires k < |words|
    ensures var a, b := |Groups(words[..k])|, |Groups(words[..k + 1])|;
      && b == a + |words[k]| + 2 <= |Groups(words)|
      && Groups(words)[a..b] == [LPAREN] + words[k] + [RPAREN]
  {
    var before, w, after := words[..k], words[k], words[k + 1..];
    var one: seq<JsString> := [w];
    assert Groups(one) == [LPAREN] + w + [RPAREN] by {
      assert |one[1..]| == 0;
    }
    assert words[..k + 1] == before + one;
    GroupsAppend(before, one);
    assert words == words[..k + 1] + after;
    GroupsAppend(words[..k + 1], after);
  }

  /** The first closing parenthesis from `j` on is the one at `k` when no
      closing parenthesis or line terminator comes before it. */
  lemma FirstClose(s: JsString, j: nat, k: nat)
    requires j <= k < |s| && s[k] == RPAREN
    requires forall m | j <= m < k :: s[m] != RPAREN && !IsLineTerminator(s[m])
    ensures CloseParen(s, j) == Some(k)
  {
  }

  /** The pattern, tried where a group starts, matches exactly that group. */
  lemma {:induction false} MatchAtGroup(s: JsString, p: nat, w: JsString)
    requires p + |w| + 2 <= |s| && s[p..p + |w| + 2] == [LPAREN] + w + [RPAREN]
    requires GroupWord(w)
    ensures ParenMatchAt(s, p) == Some(p + |w| + 2)
    ensures s[p + 1..p + |w| + 1] == w
  {
    var g, e := s[p..p + |w| + 2], p + |w| + 1;
    assert s[p] == g[0] == LPAREN;
    assert s[e] == g[|w| + 1] == RPAREN;
    forall i | 0 <= i < |w|
      ensures s[p + 1 + i] == w[i]
    {
      assert s[p + 1 + i] == g[1 + i];
    }
    forall m | p + 1 <= m < e
      ensures s[m] != RPAREN && !IsLineTerminator(s[m])
    {
      assert s[m] == w[m - p - 1] && w[m - p - 1] in w;
    }
    FirstClose(s, p + 1, e);
  }

  /** Where the group of each word lies. */
  function GroupSpans(words: seq<JsString>): (r: seq<Span>)
    ensures |r| == |words|
  {
    seq(|words|, k requires 0 <= k < |words| =>
      Span(|Groups(words[..k])|, |Groups(words[..k + 1])|))
  }

  /** The pattern, tried where the group of word `k` starts, matches that
      group, and the text inside it is the word. */
  lemma {:induction false} GroupSpanAt(words: seq<JsString>, k: nat)
    requires k < |words| && GroupWord(words[k])
    ensures var s, span := Groups(words), GroupSpans(words)[k];
      && span.start < span.end
      && ParenMatchAt(s, span.start) == Some(span.end)
      && s[span.start + 1..span.end - 1] == words[k]
  {
    var s, w := Groups(words), words[k];
    var a, b := |Groups(words[..k])|, |Groups(words[..k + 1])|;
    assert GroupSpans(words)[k] == Span(a, b);
    GroupAt(words, k);
    assert b == a + |w| + 2 && s[a..a + |w| + 2] == [LPAREN] + w + [RPAREN];
    MatchAtGroup(s, a, w);
  }

  /** The group spans tile the whole text, each a match of the pattern. */
  lemma {:induction false} GroupsTile(words: seq<JsString>)
    requires |words| > 0
    requires forall k | 0 <= k < |words| :: GroupWord(words[k])
    ensures var s, spans := Groups(words), GroupSpans(words);
      && spans[0].start == 0 && spans[|spans| - 1].end == |s|
      && (forall k | 0 <= k < |spans| ::
            spans[k].start < spans[k].end && ParenPattern(s)(spans[k].start) == Some(spans[k].end))
      && (forall k | 0 <= k < |spans| - 1 :: spans[k].end == spans[k + 1].start)
  {
    var spans := GroupSpans(words);
    forall k | 0 <= k < |words|
      ensures spans[k].start < spans[k].end
      ensures ParenMatchAt(Groups(words), spans[k].start) == Some(spans[k].end)
    {
      GroupSpanAt(words, k);
    }
    assert words[..0] == [] && words[..|words|] == words;
  }

  /** Back-to-back groups are the matches of `\((.*?)\)/g`, one per group. */
  lemma {:induction false} GroupsMatches(words: seq<JsString>)
    requires |words| > 0
    requires forall k | 0 <= k < |words| :: GroupWord(words[k])
    ensures ParenSpans(Groups(words)) == GroupSpans(words)
  {
    var s, spans := Groups(words), GroupSpans(words);
    GroupsTile(words);
    TiledScan(|s|, ParenPattern(s), 0, spans);
    GlobalScanUnique(|s|, ParenPattern(s), 0, spans, ParenSpans(s));
  }

  /** So `slice(1, -1)` of the matches gives the words back. */
  lemma {:induction false} GroupsContents(words: seq<JsString>)
    requires forall k | 0 <= k < |words| :: GroupWord(words[k])
    ensures ParenContents(Groups(words)) == words
  {
    var s := Groups(words);
    if |words| == 0 {
      assert GlobalSpans(0, ParenPattern(s), 0) == [];
    } else {
      GroupsMatches(words);
      var c := ParenContents(s);
      forall k | 0 <= k < |words|
        ensures c[k] == words[k]
      {
        GroupSpanAt(words, k);
      }
    }
  }

  // ---------------------------------------------------------------------------
  // A file that is one stream object

  /** With no opening parenthesis anywhere, the first pattern never matches
      and the first heuristic yields nothing. */
  lemma NoParenNoMatch(s: JsString)
    requires LPAREN !in s
    ensures ParenSpans(s) == [] && ParenHeuristic(s) == []
  {
    forall p | 0 <= p < |s|
      ensures ParenMatchAt(s, p).None?
    {
      assert s[p] in s;
    }
    ScanEmptyIff(|s|, ParenPattern(s), 0, ParenSpans(s));
  }

  /** A stream body the markers cannot reach into: non-empty, without
      whitespace and without an "s", so no "stream" starts inside it. */
  predicate PlainBody(body: JsString)
  {
    |body| > 0 && forall c | c in body :: !IsWhiteSpace(c) && c != STREAM[0]
  }

  /** "stream", one whitespace unit, the body, one whitespace unit, "endstream". */
  function StreamBlock(w1: CodeUnit, body: JsString, w2: CodeUnit): JsString
  {
    STREAM + [w1] + body + [w2] + ENDSTREAM
  }

  /** Where each part of a stream block lies. */
  lemma StreamBlockParts(w1: CodeUnit, body: JsString, w2: CodeUnit)
    ensures var s, n := StreamBlock(w1, body, w2), |body|;
      && |s| == n + 17 && s[0..6] == STREAM && s[6] == w1
      && s[7..n + 7] == body && s[n + 7] == w2 && s[n + 8..n + 17] == ENDSTREAM
      && forall i | 0 <= i < n :: s[7 + i] == body[i]
  {
  }

  /** Tried at the start of a block with a plain body, the stream pattern
      matches the whole block: the first `\s+` takes the one unit after
      "stream", and the first "endstream" after whitespace is the last. */
  lemma StreamBlockMatch(w1: CodeUnit, body: JsString, w2: CodeUnit)
    requires IsWhiteSpace(w1) && IsWhiteSpace(w2) && PlainBody(body)
    ensures StreamMatchAt(StreamBlock(w1, body, w2), 0) == Some(|body| + 17)
  {
    var s, n := StreamBlock(w1, body, w2), |body|;
    StreamBlockParts(w1, body, w2);
    assert StartsAt(s, 0, STREAM);
    assert WsRun(s, 6) == 1 by {
      assert s[7] == body[0] && body[0] in body;
    }
    forall e | 8 <= e < n + 8
      ensures !EndstreamAfterSpace(s, e)
    {
      assert s[e - 1] == body[e - 8] && body[e - 8] in body;
    }
    assert EndstreamAfterSpace(s, n + 8);
    FirstEndstream(s, 8, n + 8);
  }

  /** The first "endstream" after whitespace from `j` on is the one at `e`
      when none comes before it. */
  lemma FirstEndstream(s: JsString, j: nat, e: nat)
    requires j <= e && EndstreamAfterSpace(s, e)
    requires forall d | j <= d < e :: !EndstreamAfterSpace(s, d)
    ensures FindEndstream(s, j) == Some(e)
  {
  }

  /** The marker pattern matches "stream" and its whitespace unit at the
      start of such a block. */
  lemma MarkerAtBlockStart(w1: CodeUnit, body: JsString, w2: CodeUnit)
    requires IsWhiteSpace(w1) && PlainBody(body)
    ensures MarkerMatchAt(StreamBlock(w1, body, w2), 0) == Some(7)
  {
    var s := StreamBlock(w1, body, w2);
    StreamBlockParts(w1, body, w2);
    assert StartsAt(s, 0, STREAM);
    assert s[7] == body[0] && body[0] in body;
    assert WsRun(s, 6) == 1;
  }

  /** It matches the whitespace unit and "endstream" at the end. */
  lemma MarkerAtBlockEnd(w1: CodeUnit, body: JsString, w2: CodeUnit)
    requires IsWhiteSpace(w2)
    ensures var n := |body|; MarkerMatchAt(StreamBlock(w1, body, w2), n + 7) == Some(n + 17)
  {
    var s, n := StreamBlock(w1, body, w2), |body|;
    StreamBlockParts(w1, body, w2);
    assert s[n + 7..n + 13][0] == w2 != STREAM[0];
    assert WsRun(s, n + 7) == 1 by {
      assert s[n + 8] == ENDSTREAM[0];
    }
    assert StartsAt(s, n + 8, ENDSTREAM);
  }

  /** It matches nowhere inside a plain body. */
  lemma NoMarkerInBody(w1: CodeUnit, body: JsString, w2: CodeUnit)
    requires PlainBody(body)
    ensures var n := |body|; NoMatchIn(MarkerPattern(StreamBlock(w1, body, w2)), 7, n + 7)
  {
    var s, n := StreamBlock(w1, body, w2), |body|;
    StreamBlockParts(w1, body, w2);
    forall p | 7 <= p < n + 7
      ensures MarkerMatchAt(s, p).None?
    {
      var c := s[p];
      assert c == body[p - 7] && c in body;
      if p + 6 <= |s| {
        assert s[p..p + 6][0] == c;
      }
    }
  }

  /** So the marker scan over such a block finds those two and nothing
      between them. */
  lemma StreamBlockMarkers(w1: CodeUnit, body: JsString, w2: CodeUnit)
    requires IsWhiteSpace(w1) && IsWhiteSpace(w2) && PlainBody(body)
    ensures var s, n := StreamBlock(w1, body, w2), |body|;
      GlobalSpans(|s|, MarkerPattern(s), 0) == [Span(0, 7), Span(n + 7, n + 17)]
  {
    var s, n := StreamBlock(w1, body, w2), |body|;
    StreamBlockParts(w1, body, w2);
    var at := MarkerPattern(s);
    MarkerAtBlockStart(w1, body, w2);
    MarkerAtBlockEnd(w1, body, w2);
    NoMarkerInBody(w1, body, w2);
    var spans := [Span(0, 7), Span(n + 7, n + 17)];
    ScanFromNeighbours(|s|, at, 0, spans);
    GlobalSpansIsScan(|s|, at, 0);
    GlobalScanUnique(|s|, at, 0, spans, GlobalSpans(|s|, at, 0));
  }

  /** Deleting the markers leaves the body. */
  lemma StreamBlockStripped(w1: CodeUnit, body: JsString, w2: CodeUnit)
    requires IsWhiteSpace(w1) && IsWhiteSpace(w2) && PlainBody(body)
    ensures StripMarkers(StreamBlock(w1, body, w2)) == body
  {
    var s, n := StreamBlock(w1, body, w2), |body|;
    StreamBlockParts(w1, body, w2);
    StreamBlockMarkers(w1, body, w2);
    EraseTwo(s, 0, 7, n + 7, n + 17);
    assert s[0..0] + s[7..n + 7] + s[n + 17..] == body;
  }

  /** The whole block is the one match of the stream pattern. */
  lemma StreamBlockSpans(w1: CodeUnit, body: JsString, w2: CodeUnit)
    requires IsWhiteSpace(w1) && IsWhiteSpace(w2) && PlainBody(body)
    ensures var s := StreamBlock(w1, body, w2); StreamSpans(s) == [Span(0, |s|)]
  {
    var s := StreamBlock(w1, body, w2);
    StreamBlockParts(w1, body, w2);
    StreamBlockMatch(w1, body, w2);
    TiledScan(|s|, StreamPattern(s), 0, [Span(0, |s|)]);
    GlobalScanUnique(|s|, StreamPattern(s), 0, [Span(0, |s|)], StreamSpans(s));
  }

  /** A file that is one stream object with a plain body, and no opening
      parenthesis in it, gives the body with its unprintable units turned
      into spaces. */
  lemma StreamBlockText(w1: CodeUnit, body: JsString, w2: CodeUnit)
    requires IsWhiteSpace(w1) && IsWhiteSpace(w2) && PlainBody(body) && LPAREN !in body
    ensures ExtractText(StreamBlock(w1, body, w2)) == Sanitize(body)
  {
    var s := StreamBlock(w1, body, w2);
    assert LPAREN !in s by {
      assert s == STREAM + [w1] + body + [w2] + ENDSTREAM;
    }
    NoParenNoMatch(s);
    StreamBlockSpans(w1, body, w2);
    WholeStreamMatch(s);
    StreamBlockStripped(w1, body, w2);
  }

  // ---------------------------------------------------------------------------
  // A file that falls through to the sanitising fallback

  /** With "stream" glued to a unit that is neither whitespace nor an "s",
      and no "s" in the body, the stream pattern matches nowhere: the only
      "stream" with room for a match after it is the one at the start, and
      no whitespace follows it. */
  lemma {:induction false} GluedNoStreamMatch(x: CodeUnit, body: JsString, y: CodeUnit)
    requires !IsWhiteSpace(x) && x != STREAM[0] && STREAM[0] !in body
    ensures StreamSpans(StreamBlock(x, body, y)) == []
  {
    var s, n := StreamBlock(x, body, y), |body|;
    StreamBlockParts(x, body, y);
    forall p | 0 <= p < |s|
      ensures StreamMatchAt(s, p).None?
    {
      if p == 0 {
        assert WsRun(s, 6) == 0;
      } else if p <= n {
        assert s[p] != STREAM[0] by {
          if p < 6 {
            assert s[p] == STREAM[p];
          } else if p > 6 {
            assert s[p] == body[p - 7] && body[p - 7] in body;
          }
        }
        assert s[p..p + 6][0] == s[p];
      }
    }
    ScanEmptyIff(|s|, StreamPattern(s), 0, StreamSpans(s));
  }

  /** Such a file, without an opening parenthesis, falls through both
      patterns to the fallback: the whole input sanitised. */
  lemma {:induction false} GluedStreamText(x: CodeUnit, body: JsString, y: CodeUnit)
    requires !IsWhiteSpace(x) && x != STREAM[0] && STREAM[0] !in body
    requires x != LPAREN && y != LPAREN && LPAREN !in body
    ensures ExtractText(StreamBlock(x, body, y)) == Sanitize(StreamBlock(x, body, y))
  {
    var s := StreamBlock(x, body, y);
    assert LPAREN !in s by {
      assert s == STREAM + [x] + body + [y] + ENDSTREAM;
    }
    NoParenNoMatch(s);
    ParenHeuristicEmptyIff(s);
    GluedNoStreamMatch(x, body, y);
    ExtractTextAfterParens(s);
  }
}
