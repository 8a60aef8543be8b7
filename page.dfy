/** The non-UI logic of the upload page (app/page.tsx): the filter that picks
    prompt candidates out of the extracted text, the pairing of each prompt
    with its enhanced version, and the text of the export file. */
module Page {
  import opened JsRuntime

  /** "page" */
  const PAGE: JsString := [0x70, 0x61, 0x67, 0x65]
  /** "chapter" */
  const CHAPTER: JsString := [0x63, 0x68, 0x61, 0x70, 0x74, 0x65, 0x72]
  /** "section" */
  const SECTION: JsString := [0x73, 0x65, 0x63, 0x74, 0x69, 0x6F, 0x6E]

  // ---------------------------------------------------------------------------
  // extractPromptsFromText

  /** Case folding under the `i` flag without `u`: a unit whose upper case is
      ASCII while the unit itself is not keeps its identity, so only the ASCII
      letters fold. */
  function AsciiLower(c: CodeUnit): CodeUnit
  {
    if 0x41 <= c <= 0x5A then c + 0x20 else c
  }

  /** `s` starts with the lower-case ASCII word `w`, ignoring case. */
  predicate StartsWithIgnoringCase(s: JsString, w: JsString)
  {
    |w| <= |s| && forall k | 0 <= k < |w| :: AsciiLower(s[k]) == w[k]
  }

  /** `/^(page|\d+|chapter|section)/i` finds a match: document furniture. */
  predicate IsFurniture(line: JsString)
  {
    || StartsWithIgnoringCase(line, PAGE)
    || (|line| > 0 && IsDigit(line[0]))
    || StartsWithIgnoringCase(line, CHAPTER)
    || StartsWithIgnoringCase(line, SECTION)
  }

  /** The first filter: `line.length > 10 && !line.match(/^(page|\d+|chapter|section)/i)`. */
  predicate IsCandidate(line: JsString)
  {
    |line| > 10 && !IsFurniture(line)
  }

  /** `line.split(' ').length >= 3`. */
  predicate HasContentWords(line: JsString)
  {
    |Split(line, SPACE)| >= 3
  }

  /** `/^\d+$/` finds a match. */
  predicate IsJustNumbers(line: JsString)
  {
    |line| > 0 && forall k | 0 <= k < |line| :: IsDigit(line[k])
  }

  /** The second filter: `hasContentWords && notJustNumbers`. */
  predicate IsPrompt(line: JsString)
  {
    HasContentWords(line) && !IsJustNumbers(line)
  }

  /** `text.split('\n').map(line => line.trim())`. */
  function TrimmedLines(text: JsString): (r: seq<JsString>)
    ensures |r| == |Split(text, LF)|
    ensures forall k | 0 <= k < |r| :: r[k] == Trim(Split(text, LF)[k])
  {
    TrimAll(Split(text, LF))
  }

  /** `.map(line => line.trim())`: one trimmed line per line, in order. */
  function TrimAll(lines: seq<JsString>): (r: seq<JsString>)
    ensures |r| == |lines| && forall k | 0 <= k < |r| :: r[k] == Trim(lines[k])
  {
    seq(|lines|, k requires 0 <= k < |lines| => Trim(lines[k]))
  }

  /** `extractPromptsFromText(text)`. */
  function ExtractPrompts(text: JsString): seq<JsString>
  {
    Filter(Filter(TrimmedLines(text), IsCandidate), IsPrompt)
  }

  /** `split(' ').length >= 3` holds exactly when the line has at least two spaces. */
  lemma ContentWordsAreTwoSpaces(line: JsString)
    ensures HasContentWords(line) <==> multiset(line)[SPACE] >= 2
  {
  }

  /** The `notJustNumbers` test never rejects a line the first filter let
      through: such a line does not start with a digit. */
  lemma NotJustNumbersRedundant(line: JsString)
    requires IsCandidate(line)
    ensures !IsJustNumbers(line)
  {
  }

  /** So the prompts are the trimmed lines that pass the first filter and
      have at least two spaces. */
  lemma ExtractPromptsWithoutNumberTest(text: JsString)
    ensures ExtractPrompts(text) == Filter(Filter(TrimmedLines(text), IsCandidate), HasContentWords)
  {
    var candidates := Filter(TrimmedLines(text), IsCandidate);
    forall k | 0 <= k < |candidates|
      ensures IsPrompt(candidates[k]) == HasContentWords(candidates[k])
    {
      NotJustNumbersRedundant(candidates[k]);
    }
    FilterAgree(candidates, IsPrompt, HasContentWords);
  }

  /** Every prompt is a trimmed, single line of more than ten units that is
      not furniture and has at least two spaces. */
  lemma PromptShape(text: JsString)
    ensures forall k | 0 <= k < |ExtractPrompts(text)| ::
      var line := ExtractPrompts(text)[k];
      && IsTrimmed(line) && |line| > 10 && LF !in line
      && !IsFurniture(line) && multiset(line)[SPACE] >= 2
  {
  }

  /** The prompts keep their order among the trimmed lines, so there are
      never more prompts than lines; and each trimmed line that passes both
      filters is a prompt as many times as it is a line, any other line
      never. */
  lemma PromptsAreOrderedSelection(text: JsString)
    ensures IsSubsequence(ExtractPrompts(text), TrimmedLines(text))
    ensures |ExtractPrompts(text)| <= multiset(text)[LF] + 1
    ensures forall line ::
      multiset(ExtractPrompts(text))[line] ==
        (if IsCandidate(line) && HasContentWords(line) then multiset(TrimmedLines(text))[line] else 0)
  {
    var lines := TrimmedLines(text);
    var candidates := Filter(lines, IsCandidate);
    SubsequenceTransitive(Filter(candidates, IsPrompt), candidates, lines);
    SelectionCounts(lines);
  }

  /** The two filters keep each line that passes both tests as often as it
      occurs, and drop every other line. */
  lemma SelectionCounts(lines: seq<JsString>)
    ensures forall line ::
      multiset(Filter(Filter(lines, IsCandidate), IsPrompt))[line] ==
        (if IsCandidate(line) && HasContentWords(line) then multiset(lines)[line] else 0)
  {
    var candidates := Filter(lines, IsCandidate);
    var prompts := Filter(candidates, IsPrompt);
    FilterCounts(lines, IsCandidate);
    FilterCounts(candidates, IsPrompt);
    forall line
      ensures multiset(prompts)[line] ==
        if IsCandidate(line) && HasContentWords(line) then multiset(lines)[line] else 0
    {
      assert multiset(prompts)[line] == if IsPrompt(line) then multiset(candidates)[line] else 0;
      assert multiset(candidates)[line] == if IsCandidate(line) then multiset(lines)[line] else 0;
      if IsCandidate(line) {
        NotJustNumbersRedundant(line);
      }
    }
  }

  /** A text that is one trimmed line passing both tests is its own only
      prompt. */
  lemma SingleLinePrompt(line: JsString)
    requires LF !in line && IsTrimmed(line)
    requires IsCandidate(line) && multiset(line)[SPACE] >= 2
    ensures ExtractPrompts(line) == [line]
  {
    SplitWithoutSep(line, LF);
    assert TrimmedLines(line) == [line];
    ContentWordsAreTwoSpaces(line);
    NotJustNumbersRedundant(line);
    FilterKeepsAll([line], IsCandidate);
    FilterKeepsAll([line], IsPrompt);
  }

  /** Filtering the newline-join of the prompts gives the prompts again. */
  lemma ExtractPromptsIdempotent(text: JsString)
    ensures ExtractPrompts(Join(ExtractPrompts(text), [LF])) == ExtractPrompts(text)
  {
    var prompts := ExtractPrompts(text);
    if prompts == [] {
      NoPromptsInEmptyText();
    } else {
      PromptShape(text);
      forall k | 0 <= k < |prompts|
        ensures IsCandidate(prompts[k]) && IsPrompt(prompts[k])
      {
        assert prompts[k] in Filter(TrimmedLines(text), IsCandidate);
      }
      RefilterPrompts(prompts);
    }
  }

  /** The empty text is one empty line, which is too short. */
  lemma NoPromptsInEmptyText()
    ensures ExtractPrompts([]) == []
  {
  }

  /** Trimmed single lines that pass both filters come back unchanged from
      a second pass over their newline-join. */
  lemma RefilterPrompts(prompts: seq<JsString>)
    requires prompts != []
    requires forall k | 0 <= k < |prompts| :: IsTrimmed(prompts[k]) && LF !in prompts[k]
    requires forall k | 0 <= k < |prompts| :: IsCandidate(prompts[k]) && IsPrompt(prompts[k])
    ensures ExtractPrompts(Join(prompts, [LF])) == prompts
  {
    LinesOfJoin(prompts);
    FilterTwiceKeepsAll(prompts, IsCandidate, IsPrompt);
  }

  /** Trimmed single lines are the trimmed lines of their newline-join. */
  lemma LinesOfJoin(lines: seq<JsString>)
    requires lines != []
    requires forall k | 0 <= k < |lines| :: IsTrimmed(lines[k]) && LF !in lines[k]
    ensures TrimmedLines(Join(lines, [LF])) == lines
  {
    JoinThenSplit(lines, LF);
    var again := TrimmedLines(Join(lines, [LF]));
    forall k | 0 <= k < |lines|
      ensures again[k] == lines[k]
    {
      assert again[k] == Trim(lines[k]);
    }
  }

  // ---------------------------------------------------------------------------
  // Pairing each prompt with its enhanced version

  datatype EnhancedPrompt = EnhancedPrompt(original: JsString, enhanced: JsString)

  /** `extractedPrompts.map(prompt => ({original: prompt, enhanced:
      enhance80sPrompt(prompt)}))`. The enhancer draws at random, so it is a
      parameter that sees the number of the call as well as the prompt. */
  function PairWithEnhanced(prompts: seq<JsString>, enhance: (nat, JsString) -> JsString): (r: seq<EnhancedPrompt>)
    ensures |r| == |prompts|
    ensures forall k | 0 <= k < |r| :: r[k].original == prompts[k] && r[k].enhanced == enhance(k, prompts[k])
  {
    seq(|prompts|, k requires 0 <= k < |prompts| => EnhancedPrompt(prompts[k], enhance(k, prompts[k])))
  }

  // ---------------------------------------------------------------------------
  // The export file

  /** `${n}` for a natural number: its decimal digits, no leading zero. */
  function Decimal(n: nat): (r: JsString)
    ensures |r| > 0 && forall k | 0 <= k < |r| :: IsDigit(r[k])
    ensures n > 0 ==> r[0] != 0x30
    ensures DecimalValue(r) == n
    decreases n
  {
    if n < 10 then [0x30 + n]
    else
      var r := Decimal(n / 10) + [0x30 + n % 10];
      assert r[..|r| - 1] == Decimal(n / 10);
      r
  }

  /** The number a string of decimal digits stands for. */
  function DecimalValue(s: JsString): nat
    requires forall k | 0 <= k < |s| :: IsDigit(s[k])
    decreases |s|
  {
    if |s| == 0 then 0
    else
      assert IsDigit(s[|s| - 1]);
      DecimalValue(s[..|s| - 1]) * 10 + (s[|s| - 1] as int - 0x30)
  }

  /** "===== PROMPT n =====". */
  function Header(n: nat): JsString
  {
    Str("===== PROMPT ") + Decimal(n) + Str(" =====")
  }

  /** The block of one item, `idx` counting from 0. */
  function Block(idx: nat, item: EnhancedPrompt): JsString
  {
    Header(idx + 1) + Str("\nORIGINAL:\n") + item.original
      + Str("\n\n80s ANIMATION VERSION:\n") + item.enhanced + Str("\n\n")
  }

  function Blocks(items: seq<EnhancedPrompt>): (r: seq<JsString>)
    ensures |r| == |items| && forall k | 0 <= k < |r| :: r[k] == Block(k, items[k])
  {
    seq(|items|, k requires 0 <= k < |items| => Block(k, items[k]))
  }

  /** The content `downloadAsText` writes: the blocks joined by newlines. */
  function ExportContent(items: seq<EnhancedPrompt>): JsString
  {
    Join(Blocks(items), [LF])
  }

  /** Nothing to export gives the empty file, and only then. */
  lemma ExportEmptyIff(items: seq<EnhancedPrompt>)
    ensures ExportContent(items) == [] <==> items == []
  {
  }

  /** One more item adds a newline and its block, numbered one past the
      items before it. */
  lemma ExportAppend(items: seq<EnhancedPrompt>, item: EnhancedPrompt)
    requires items != []
    ensures ExportContent(items + [item]) == ExportContent(items) + [LF] + Block(|items|, item)
  {
    assert Blocks(items + [item]) == Blocks(items) + [Block(|items|, item)];
    JoinAppend(Blocks(items), [Block(|items|, item)], [LF]);
  }

  /** The export of the first k + 1 items is the export of the first k, a
      newline when k > 0, and block k. */
  lemma ExportUpTo(items: seq<EnhancedPrompt>, k: nat)
    requires k < |items|
    ensures ExportContent(items[..k + 1])
            == (if k == 0 then [] else ExportContent(items[..k]) + [LF]) + Block(k, items[k])
  {
    assert items[..k + 1] == items[..k] + [items[k]];
    if k == 0 {
      assert ExportContent(items[..1]) == Block(0, items[0]);
    } else {
      ExportAppend(items[..k], items[k]);
    }
  }

  /** The export of a prefix of the items is a prefix of the export. */
  lemma ExportPrefix(items: seq<EnhancedPrompt>, k: nat)
    requires k < |items|
    ensures var part := ExportContent(items[..k + 1]);
            |part| <= |ExportContent(items)| && ExportContent(items)[..|part|] == part
  {
    var all := Blocks(items);
    assert all[..k + 1] == Blocks(items[..k + 1]);
    if k + 1 < |items| {
      assert all == all[..k + 1] + all[k + 1..];
      JoinAppend(all[..k + 1], all[k + 1..], [LF]);
    } else {
      assert items == items[..k + 1];
    }
  }

  /** Every block starts with its header. */
  lemma BlockStartsWithHeader(idx: nat, item: EnhancedPrompt)
    ensures StartsAt(Block(idx, item), 0, Header(idx + 1))
  {
    var blk := Block(idx, item);
    assert blk[..|Header(idx + 1)|] == Header(idx + 1);
  }

  /** Block k (counting from 0) sits right after the export of the first k
      items and a newline separating it from them, and its header carries the
      number k + 1, which can be read back from its digits. */
  lemma ExportBlockAt(items: seq<EnhancedPrompt>, k: nat)
    requires k < |items|
    ensures var before := ExportContent(items[..k]);
            var at := if k == 0 then 0 else |before| + 1;
            && StartsAt(ExportContent(items), at, Block(k, items[k]))
            && (k > 0 ==> ExportContent(items)[..at] == before + [LF])
    ensures StartsAt(Block(k, items[k]), 0, Header(k + 1))
    ensures DecimalValue(Decimal(k + 1)) == k + 1
  {
    ExportUpTo(items, k);
    ExportPrefix(items, k);
    BlockStartsWithHeader(k, items[k]);
    var before := ExportContent(items[..k]);
    var lead := if k == 0 then [] else before + [LF];
    var blk := Block(k, items[k]);
    var all := ExportContent(items);
    assert all[..|lead| + |blk|] == lead + blk;
    assert all[|lead|..|lead| + |blk|] == blk;
    assert all[..|lead|] == lead;
  }
}
