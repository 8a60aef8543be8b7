/** Fixed inputs worked through the route and the page's filter, each with the
    exact text or verdict the model gives for it. */
module WorkedInputs {
  import opened JsRuntime
  import opened ExtractPdf
  import opened Page
  import opened Pipeline

  // ---------------------------------------------------------------------------
  // Parenthesised groups

  /** "hello" */
  const HELLO: JsString := [0x68, 0x65, 0x6C, 0x6C, 0x6F]
  /** "a" */
  const A: JsString := [0x61]
  /** "world wide" */
  const WORLD_WIDE: JsString := [0x77, 0x6F, 0x72, 0x6C, 0x64, 0x20, 0x77, 0x69, 0x64, 0x65]

  /** "(hello)(a)(world wide)" */
  const HELLO_INPUT: JsString := Groups([HELLO, A, WORLD_WIDE])

  /** The three contents between the parentheses are "hello", "a" and
      "world wide". */
  lemma HelloContents()
    ensures ParenContents(HELLO_INPUT) == [HELLO, A, WORLD_WIDE]
  {
    var words := [HELLO, A, WORLD_WIDE];
    assert GroupWord(HELLO) && GroupWord(A) && GroupWord(WORLD_WIDE);
    assert forall k | 0 <= k < |words| :: GroupWord(words[k]);
    GroupsContents(words);
  }

  /** "hello\nworld wide" */
  const HELLO_OUTPUT: JsString := [0x68, 0x65, 0x6C, 0x6C, 0x6F, 0x0A, 0x77, 0x6F, 0x72, 0x6C, 0x64, 0x20, 0x77, 0x69, 0x64, 0x65]

  /** Of three contents, a middle one of at most two units is dropped. */
  lemma {:induction false} DropShortMiddle(a: JsString, b: JsString, c: JsString)
    requires |a| > 2 && |b| <= 2 && |c| > 2
    ensures Filter([a, b, c], LongerThanTwo) == [a, c]
  {
    var none: seq<JsString> := [];
    FilterCons(c, none, LongerThanTwo);
    assert [c] + none == [c];
    FilterCons(b, [c], LongerThanTwo);
    assert [b, c] == [b] + [c];
    FilterCons(a, [b, c], LongerThanTwo);
    assert [a, b, c] == [a] + [b, c];
  }

  /** The one-unit content "a" is dropped and the two others are joined. */
  lemma HelloJoin()
    ensures Join(Filter([HELLO, A, WORLD_WIDE], LongerThanTwo), [LF]) == HELLO_OUTPUT
  {
    DropShortMiddle(HELLO, A, WORLD_WIDE);
    JoinTwo(HELLO, WORLD_WIDE, [LF]);
  }

  /** The one-unit run "a" is dropped, and the two others become the lines
      of the first heuristic's text. */
  lemma HelloHeuristic()
    ensures ParenHeuristic(HELLO_INPUT) == HELLO_OUTPUT
  {
    HelloContents();
    HelloJoin();
  }

  /** So the route answers with that text. */
  lemma ParenExample()
    ensures ExtractText(HELLO_INPUT) == HELLO_OUTPUT
  {
    HelloHeuristic();
  }

  // ---------------------------------------------------------------------------
  // One stream object

  /** "BIN", U+0001, "RY" */
  const BIN_MIDDLE: JsString := [0x42, 0x49, 0x4E, 0x01, 0x52, 0x59]

  /** "stream", LF, "BIN", U+0001, "RY", LF, "endstream" */
  const BIN_INPUT: JsString := StreamBlock(LF, BIN_MIDDLE, LF)

  /** "BIN RY" */
  const BIN_OUTPUT: JsString := [0x42, 0x49, 0x4E, 0x20, 0x52, 0x59]

  /** The control unit in the middle becomes a space. */
  lemma BinSanitized()
    ensures Sanitize(BIN_MIDDLE) == BIN_OUTPUT
  {
    var bin, ry := [0x42, 0x49, 0x4E], [0x52, 0x59];
    assert BIN_MIDDLE == bin + [0x01] + ry;
    assert BIN_OUTPUT == bin + [SPACE] + ry;
    SanitizeAppend(bin + [0x01], ry);
    SanitizeAppend(bin, [0x01]);
    assert Sanitize([0x01]) == [SPACE];
    SanitizeClean(bin);
    SanitizeClean(ry);
  }

  /** The parenthesis heuristic yields nothing, and the stream heuristic
      yields the body between the markers with its control unit turned into
      a space. */
  lemma BinExample()
    ensures ExtractText(BIN_INPUT) == BIN_OUTPUT
  {
    assert PlainBody(BIN_MIDDLE) && LPAREN !in BIN_MIDDLE;
    StreamBlockText(LF, BIN_MIDDLE, LF);
    BinSanitized();
  }

  // ---------------------------------------------------------------------------
  // Keywords glued to NUL units

  /** "BINARY" */
  const BINARY: JsString := [0x42, 0x49, 0x4E, 0x41, 0x52, 0x59]

  /** "stream", NUL, "BINARY", NUL, "endstream" */
  const NUL_INPUT: JsString := StreamBlock(0, BINARY, 0)

  /** "stream BINARY endstream" */
  const NUL_OUTPUT: JsString := STREAM + [SPACE] + BINARY + [SPACE] + ENDSTREAM

  /** Neither pattern matches, so the route falls back to sanitising the
      whole input: same length, each NUL turned into a space. */
  lemma NulExample()
    ensures ExtractText(NUL_INPUT) == NUL_OUTPUT
  {
    assert STREAM[0] !in BINARY && LPAREN !in BINARY;
    GluedStreamText(0, BINARY, 0);
    NulSanitized();
  }

  /** Sanitising turns the two NULs into spaces and keeps the rest. */
  lemma NulSanitized()
    ensures Sanitize(NUL_INPUT) == NUL_OUTPUT
  {
    assert forall c | c in STREAM + BINARY + ENDSTREAM :: IsPrintableOrNewline(c);
    SanitizeSpliced(STREAM, BINARY, ENDSTREAM);
  }

  /** Three clean strings separated by two NULs sanitise to the same strings
      separated by two spaces. */
  lemma SanitizeSpliced(a: JsString, b: JsString, c: JsString)
    requires forall x | x in a + b + c :: IsPrintableOrNewline(x)
    ensures Sanitize(a + [0] + b + [0] + c) == a + [SPACE] + b + [SPACE] + c
  {
    SanitizeAppend(a + [0] + b + [0], c);
    SanitizeAppend(a + [0] + b, [0]);
    SanitizeAppend(a + [0], b);
    SanitizeAppend(a, [0]);
    assert Sanitize([0]) == [SPACE];
    SanitizeClean(a);
    SanitizeClean(b);
    SanitizeClean(c);
  }

  // ---------------------------------------------------------------------------
  // Lines for the page's filter

  /** "Page 12" is too short and is page furniture; "1234" is too short and
      only digits; "hi" is too short. */
  lemma ShortLinesDropped()
    ensures !IsCandidate([0x50, 0x61, 0x67, 0x65, 0x20, 0x31, 0x32]) && IsFurniture([0x50, 0x61, 0x67, 0x65, 0x20, 0x31, 0x32])
    ensures !IsCandidate([0x31, 0x32, 0x33, 0x34]) && IsJustNumbers([0x31, 0x32, 0x33, 0x34])
    ensures !IsCandidate([0x68, 0x69])
  {
  }

  /** "The", "quick", "fox", "jumps" */
  const THE: JsString := [0x54, 0x68, 0x65]
  const QUICK: JsString := [0x71, 0x75, 0x69, 0x63, 0x6B]
  const FOX_WORD: JsString := [0x66, 0x6F, 0x78]
  const JUMPS: JsString := [0x6A, 0x75, 0x6D, 0x70, 0x73]

  /** "The quick fox jumps" */
  const FOX: JsString := THE + [SPACE] + QUICK + [SPACE] + FOX_WORD + [SPACE] + JUMPS

  /** That line has no newline, no whitespace at either end, more than ten
      units, and does not start like furniture, ... */
  lemma FoxOneCandidateLine()
    ensures LF !in FOX && IsTrimmed(FOX) && IsCandidate(FOX)
  {
    assert LF !in THE && LF !in QUICK && LF !in FOX_WORD && LF !in JUMPS;
    assert |FOX| == 19 && FOX[0] == 0x54 && FOX[18] == 0x73;
  }

  /** ... and three spaces between its words. */
  lemma FoxWords()
    ensures multiset(FOX)[SPACE] == 3
  {
    assert SPACE !in THE && SPACE !in QUICK && SPACE !in FOX_WORD && SPACE !in JUMPS;
  }

  /** So it is the one prompt of its text. */
  lemma FoxKept()
    ensures ExtractPrompts(FOX) == [FOX]
  {
    FoxOneCandidateLine();
    FoxWords();
    SingleLinePrompt(FOX);
  }
}
