# PDF prompt scraper: extraction, prompt filter and export

This project models the text-processing core of a small Next.js app. A user
uploads a PDF of scene descriptions. The server pulls readable text out of it
with three regular-expression heuristics. The page then splits that text into
prompt candidates, pairs each prompt with an "80s animation" rewrite, and
offers the pairs as a plain-text download.

Modules:

- `JsRuntime` (`js_runtime.dfy`): the JavaScript built-ins the core uses.
  Strings are sequences of UTF-16 code units, because `length`, `.`, `\s`,
  `trim` and character classes without the `u` flag all work per code unit.
  It holds `split`, `join`, `trim`, `Array.prototype.filter` and the
  whitespace set shared by `\s` and `trim`.
- `JsRegExp` (`js_regexp.dfy`): the scan a `g` regular expression makes for
  `match` and `replace`. The pattern is a parameter giving where its match at
  each position ends. `GlobalSpans` is the engine's loop. `IsGlobalScan` is
  an independent description of the result, and the two are proved to agree
  and the description to have a single solution.
- `ExtractPdf` (`extract_pdf.dfy`): `POST /api/extract-pdf`. It covers the
  missing-file guard, the parenthesis heuristic, the `stream … endstream`
  heuristic, and the sanitising fallback, chained so the first non-empty
  result wins. Each pattern has a shape predicate. Each match function is
  proved sound and complete against its shape, with the lazy quantifier's
  "shortest" and the backtracking of the stream pattern written out.
- `Page` (`page.dfy`): `extractPromptsFromText`, the
  `{original, enhanced}` pairing and the content of the export file.
- `Pipeline` (`pipeline.dfy`): `handleProcess` from the upload to the
  pairs. It also covers three families of files run through the route:
  back-to-back parenthesised groups, a file that is one `stream … endstream`
  object, and a file whose "stream" keyword is glued to its neighbours. Each
  family is proved in general.
- `WorkedInputs` (`worked_inputs.dfy`): fixed inputs from those families
  and for the page's filter, each with the exact result the model gives.

An empty upload is not an error. The guard `!file` answers 400 only when the
form has no file, or when the field is falsy. An empty file passes the guard
and goes through the three heuristics. It yields a 200 response with empty
text (`ExtractPdf.Post`).

The stream heuristic needs whitespace right after "stream", because the
pattern starts with `stream\s+`. In `stream\x00BINARY\x00endstream` a NUL
follows "stream", and NUL is not whitespace, so the stream pattern finds no
match. The input falls through to the fallback, which sanitises all of it to
"stream BINARY endstream" (`WorkedInputs.NulExample`, and
`Pipeline.GluedStreamText` in general).

The stream heuristic yields just the sanitised body only for some bodies.
`Pipeline.StreamBlockText` and `WorkedInputs.BinExample` cover a file that is
"stream", one whitespace unit, a body, one whitespace unit and "endstream",
with no `(`. They require the body to be non-empty, with no whitespace and
no "s" (`Pipeline.PlainBody`). For other bodies the marker pattern can also
delete text inside the body. For example, `stream\nupstream data\nendstream`
gives "updata", because the inner "stream " is deleted as a marker too.

## Model

| member | source | states |
|---|---|---|
| JsRuntime.IsLineTerminator | app/api/extract-pdf/route.ts:21 | the units `.` does not match: LF, CR, U+2028 and U+2029 (`ExtractPdf.ParenContentsOneLine` shows no content holds one) |
| JsRuntime.IsWhiteSpace | app/api/extract-pdf/route.ts:31 | the class `\s`, the same set `trim` removes: WhiteSpace and LineTerminator units (`JsRuntime.WsRun` and `JsRuntime.Trim` state what runs of it do) |
| JsRuntime.IsDigit | app/page.tsx:24-28 | the class `\d`: the ASCII digits 0 to 9 only |
| JsRuntime.WsRun | app/api/extract-pdf/route.ts:31 | the length of the maximal run of `\s` units from a position |
| JsRuntime.Join | app/api/extract-pdf/route.ts:26 | `join(sep)`: its properties are stated by `JsRuntime.JoinTwo`, `JoinAppend`, `JoinKeeps`, `JoinEmpty` and the round trips with `split` |
| JsRuntime.JoinTwo | app/page.tsx:80 | joining two strings puts the separator between them |
| JsRuntime.Split | app/page.tsx:22 | `split(sep)` gives one more piece than there are separators, and no piece contains one |
| JsRuntime.SplitThenJoin | app/page.tsx:22 | joining the pieces of `split` with the separator gives the string back |
| JsRuntime.SplitWithoutSep | app/page.tsx:22 | a string without the separator splits into itself alone |
| JsRuntime.SplitAtFirstSep | app/page.tsx:22 | splitting `a + sep + b`, with no separator in `a`, gives `a` and then the pieces of `b` |
| JsRuntime.JoinThenSplit | app/api/extract-pdf/route.ts:26 | splitting a join of separator-free parts gives the parts back |
| JsRuntime.JoinAppend | app/page.tsx:80 | joining two non-empty lists is joining each and putting the separator between |
| JsRuntime.JoinKeeps | app/api/extract-pdf/route.ts:38 | a join of parts and separator all drawn from a set of units contains only units of that set |
| JsRuntime.JoinEmpty | app/api/extract-pdf/route.ts:26 | a join of non-empty parts is empty exactly when there are no parts |
| JsRuntime.IsTrimmed | app/page.tsx:23 | no whitespace at either end; `JsRuntime.Trim` gives such a string and leaves one alone |
| JsRuntime.TrimStart | app/page.tsx:23 | what `trim` drops at the front is whitespace and the rest is a suffix |
| JsRuntime.TrimEnd | app/page.tsx:23 | what `trim` drops at the back is whitespace and the rest is a prefix |
| JsRuntime.Trim | app/page.tsx:23 | `trim` gives the slice of the input left once whitespace is dropped at both ends: only whitespace lies before and after it, it has none at either end, and a trimmed string is left alone |
| JsRuntime.Filter | app/page.tsx:24 | `filter` keeps exactly the accepted elements, in order: everything kept is accepted, everything accepted is kept |
| JsRuntime.FilterCounts | app/page.tsx:24 | `filter` keeps each accepted value as many times as it occurs and drops every rejected value |
| JsRuntime.FilterKeepsAll | app/page.tsx:26-30 | filtering a list whose elements are all accepted gives the list |
| JsRuntime.FilterTwiceKeepsAll | app/page.tsx:24-30 | a list whose elements pass both tests survives both filters unchanged |
| JsRuntime.FilterAgree | app/page.tsx:26-30 | two tests that agree on every element filter alike |
| JsRegExp.IsGlobalScan | app/api/extract-pdf/route.ts:21 | the reference description of a `g` scan: every match found where it starts, in order, without overlap, and no match starting in any gap (`JsRegExp.GlobalSpansIsScan` and `GlobalScanUnique` tie it to the engine loop) |
| JsRegExp.GlobalSpans | app/api/extract-pdf/route.ts:21 | the `g` scan's matches lie in order, without overlap, inside the string |
| JsRegExp.GlobalSpansIsScan | app/api/extract-pdf/route.ts:21 | the engine's loop finds every match the pattern makes outside earlier matches and nothing else |
| JsRegExp.GlobalScanUnique | app/api/extract-pdf/route.ts:21 | only one list of matches fits that description |
| JsRegExp.ScanEmptyIff | app/api/extract-pdf/route.ts:21-22 | `match` finds nothing (returns null) exactly when the pattern matches at no position |
| JsRegExp.ScanFromNeighbours | app/api/extract-pdf/route.ts:21 | matches found where they start, each ending before the next begins, with no match in any gap, are the whole `g` scan |
| JsRegExp.TiledScan | app/api/extract-pdf/route.ts:21 | matches laid end to end from the start to the end of the string are the whole `g` scan |
| JsRegExp.Slices | app/api/extract-pdf/route.ts:21 | the texts `match` returns are the string's slices at the matches |
| JsRegExp.Erase | app/api/extract-pdf/route.ts:35 | `replace(re, '')` deletes exactly as many units as the matches cover and keeps the rest in order |
| JsRegExp.EraseTwo | app/api/extract-pdf/route.ts:35 | deleting two matches leaves the text before, between and after them |
| ExtractPdf.ParenShape | app/api/extract-pdf/route.ts:21 | the shape of `\((.*?)\)`: `(`, units that are not line terminators, `)` (`ExtractPdf.ParenMatchAt` is sound and complete against it) |
| ExtractPdf.CloseParen | app/api/extract-pdf/route.ts:21 | the first `)` on the rest of the line, or none when a line terminator or the end comes first |
| ExtractPdf.ParenMatchAt | app/api/extract-pdf/route.ts:21 | `\((.*?)\)` at a position matches the shortest `(`, single-line text, `)` there, and fails only when no such text exists |
| ExtractPdf.NoCloseNoMatch | app/api/extract-pdf/route.ts:21 | with no `)` before the line ends, no text of the pattern's shape starts at the `(` |
| ExtractPdf.ParenSpans | app/api/extract-pdf/route.ts:21 | the matches of `\((.*?)\)/g` form the global scan of that pattern, each of the pattern's shape |
| ExtractPdf.SliceInner | app/api/extract-pdf/route.ts:24 | `slice(1, -1)`; `ExtractPdf.InnerSlices` states that it drops exactly the first and last unit |
| ExtractPdf.ParenContents | app/api/extract-pdf/route.ts:23-24 | `slice(1, -1)` of each match is the text strictly between its parentheses |
| ExtractPdf.InnerSlices | app/api/extract-pdf/route.ts:23-24 | `slice(1, -1)` of each matched text of two units or more drops exactly its first and last unit |
| ExtractPdf.ParenContentsOneLine | app/api/extract-pdf/route.ts:21-24 | no content holds a `)` or a line terminator |
| ExtractPdf.LongerThanTwo | app/api/extract-pdf/route.ts:25 | the length test `text => text.length > 2` |
| ExtractPdf.ParenKept | app/api/extract-pdf/route.ts:23-25 | the contents longer than two units, in match order (`ExtractPdf.KeptAreOneLine`) |
| ExtractPdf.KeptAreOneLine | app/api/extract-pdf/route.ts:21-25 | each content kept by the length filter has at least three units and no `)` or newline |
| ExtractPdf.ParenHeuristic | app/api/extract-pdf/route.ts:21-27 | the first heuristic's text; `ExtractPdf.ParenHeuristicLines` and `ParenHeuristicEmptyIff` state what it is |
| ExtractPdf.ParenHeuristicLines | app/api/extract-pdf/route.ts:21-27 | every kept content has at least three units; the lines of a non-empty result are the kept contents in match order |
| ExtractPdf.ParenHeuristicEmptyIff | app/api/extract-pdf/route.ts:22-30 | the first heuristic yields nothing exactly when no content is longer than two units |
| ExtractPdf.StreamShape | app/api/extract-pdf/route.ts:31 | the shape of `stream\s+([\s\S]*?)\s+endstream`: "stream", whitespace, anything, whitespace, "endstream" |
| ExtractPdf.StreamSplit | app/api/extract-pdf/route.ts:31 | that shape with the first `\s+` taking a given number of units |
| ExtractPdf.StreamPick | app/api/extract-pdf/route.ts:31 | the split a backtracking engine settles on: the largest first-whitespace count for which an end exists, then the earliest end for it |
| ExtractPdf.FindEndstream | app/api/extract-pdf/route.ts:31 | the first "endstream" preceded by whitespace from a position on |
| ExtractPdf.StreamMatchAt | app/api/extract-pdf/route.ts:31 | `stream\s+([\s\S]*?)\s+endstream` at a position matches exactly when a text of that shape starts there, and the end it gives is the engine's pick (`ExtractPdf.StreamPick`) |
| ExtractPdf.PickAfterRun | app/api/extract-pdf/route.ts:31 | with an "endstream" after whitespace past the whole run after "stream", the pick keeps the run and ends at the first such "endstream" |
| ExtractPdf.PickInsideRun | app/api/extract-pdf/route.ts:31 | with none past the run but "endstream" right at its end, the pick gives back one whitespace unit and ends there |
| ExtractPdf.StreamShapeEnds | app/api/extract-pdf/route.ts:31 | any match ends with an "endstream" after whitespace, past the whitespace run after "stream" or right at its end |
| ExtractPdf.StreamSpans | app/api/extract-pdf/route.ts:31 | the stream matches form the global scan of that pattern, each of its shape |
| ExtractPdf.MarkerShape | app/api/extract-pdf/route.ts:35 | the shape of the marker pattern's two alternatives, `stream\s+` or `\s+endstream`: "stream" and whitespace, or whitespace and "endstream" |
| ExtractPdf.MarkerMatchAt | app/api/extract-pdf/route.ts:35 | the marker pattern at a position matches exactly when a text of its shape starts there, and the match is the longest such text |
| ExtractPdf.OpeningMarkerLongest | app/api/extract-pdf/route.ts:35 | after "stream", no marker-shaped text runs past the whitespace run |
| ExtractPdf.ClosingMarkerLongest | app/api/extract-pdf/route.ts:35 | from whitespace, no marker-shaped text runs past the "endstream" right after the run |
| ExtractPdf.MarkerShapeFound | app/api/extract-pdf/route.ts:35 | a text of the marker shape is found by the alternative tried first that fits |
| ExtractPdf.MarkersLeaveAUnit | app/api/extract-pdf/route.ts:35 | from a unit that is not whitespace, in a text that does not end in whitespace, deleting the markers leaves at least one unit |
| ExtractPdf.StripMarkers | app/api/extract-pdf/route.ts:35 | deleting the markers keeps the remaining units in order |
| ExtractPdf.IsPrintableOrNewline | app/api/extract-pdf/route.ts:36 | the class `[\x20-\x7E\n]`: printable ASCII or a newline (`ExtractPdf.Sanitize` keeps exactly these units) |
| ExtractPdf.Sanitize | app/api/extract-pdf/route.ts:36 | `replace(/[^\x20-\x7E\n]/g, ' ')` keeps the length, keeps printable ASCII and newlines in place and turns every other unit into a space |
| ExtractPdf.SanitizeFixedPoints | app/api/extract-pdf/route.ts:44 | sanitising changes nothing exactly on clean text, so it is idempotent |
| ExtractPdf.SanitizeAppend | app/api/extract-pdf/route.ts:36 | sanitising works unit by unit: the sanitised concatenation is the concatenation of the sanitised parts |
| ExtractPdf.SanitizeClean | app/api/extract-pdf/route.ts:44 | text of printable ASCII and newlines sanitises to itself |
| ExtractPdf.StreamRegion | app/api/extract-pdf/route.ts:34-37 | one match with its markers deleted, sanitised; `ExtractPdf.WholeStreamMatch` and `StreamHeuristicClean` state its use |
| ExtractPdf.StreamRegionNonEmpty | app/api/extract-pdf/route.ts:31-37 | a text from "stream" to "endstream" keeps at least one unit once its markers are deleted and it is sanitised |
| ExtractPdf.StreamHeuristic | app/api/extract-pdf/route.ts:29-40 | the second heuristic's text; `ExtractPdf.StreamHeuristicClean` states that it is clean and empty without a match |
| ExtractPdf.WholeStreamMatch | app/api/extract-pdf/route.ts:31-38 | when the whole input is the one stream match, the heuristic's text is that match with its markers deleted, sanitised |
| ExtractPdf.StreamHeuristicClean | app/api/extract-pdf/route.ts:30-40 | the stream heuristic's text holds only printable ASCII and newlines, and is non-empty exactly when the pattern matched |
| ExtractPdf.ExtractText | app/api/extract-pdf/route.ts:17-45 | the first non-empty of the three heuristics; `ExtractPdf.ExtractTextEmptyIff`, `ExtractTextFromParens` and `ExtractTextAfterParens` state which one wins |
| ExtractPdf.ExtractTextEmptyIff | app/api/extract-pdf/route.ts:17-45 | the chain yields the empty text only for the empty input |
| ExtractPdf.ExtractTextFromParens | app/api/extract-pdf/route.ts:20-27 | when some parenthesised content is longer than two units, the first heuristic wins and its lines are the kept contents |
| ExtractPdf.ExtractTextAfterParens | app/api/extract-pdf/route.ts:29-45 | otherwise the result is clean; with a stream match it is the stream heuristic's text, and with none it is the whole input sanitised |
| ExtractPdf.Post | app/api/extract-pdf/route.ts:3-47 | a missing file gives status 400 and "No file provided", and only then; a file gives status 200 with the extracted text, empty only for an empty file |
| Page.AsciiLower | app/page.tsx:24 | the case folding of the `i` flag without `u`: only ASCII letters fold |
| Page.StartsWithIgnoringCase | app/page.tsx:24 | a line starts with a lower-case word, ignoring case |
| Page.IsFurniture | app/page.tsx:24 | the furniture pattern of the first filter matches: the line starts with "page", a digit, "chapter" or "section" in any case (`Page.PromptShape` shows no prompt is furniture) |
| Page.IsCandidate | app/page.tsx:24 | the first filter: longer than ten units and not furniture |
| Page.HasContentWords | app/page.tsx:27 | `split(' ').length >= 3`; `Page.ContentWordsAreTwoSpaces` states that it means two spaces or more |
| Page.IsJustNumbers | app/page.tsx:28 | `/^\d+$/` matches: a non-empty run of ASCII digits |
| Page.IsPrompt | app/page.tsx:26-30 | the second filter; `Page.NotJustNumbersRedundant` states that only its word test can fail after the first filter |
| Page.TrimmedLines | app/page.tsx:22-23 | one trimmed line per piece of `split('\n')` |
| Page.TrimAll | app/page.tsx:23 | one trimmed line per line, in order |
| Page.ExtractPrompts | app/page.tsx:21-31 | `extractPromptsFromText`; `Page.PromptsAreOrderedSelection`, `PromptShape` and `ExtractPromptsIdempotent` state what it gives |
| Page.ContentWordsAreTwoSpaces | app/page.tsx:27 | `split(' ').length >= 3` holds exactly when the line has at least two spaces |
| Page.NotJustNumbersRedundant | app/page.tsx:24-28 | a line that passed the first filter never fails `notJustNumbers` |
| Page.ExtractPromptsWithoutNumberTest | app/page.tsx:21-31 | the prompts are the candidates with at least two spaces; the number test never decides |
| Page.PromptShape | app/page.tsx:21-31 | every prompt is trimmed, one line, longer than ten units, not page/number/chapter/section furniture, and has two spaces |
| Page.SingleLinePrompt | app/page.tsx:21-31 | a text that is one trimmed line passing the length, furniture and two-space tests is its own only prompt |
| Page.PromptsAreOrderedSelection | app/page.tsx:21-31 | the prompts are the trimmed lines in document order, no more than the lines of the text, and each line occurs among them as often as among the trimmed lines when it passes both tests and not at all otherwise |
| Page.SelectionCounts | app/page.tsx:22-30 | the two filters keep each line that passes both tests as often as it occurs and drop every other line |
| Page.NoPromptsInEmptyText | app/page.tsx:21-31 | the empty text gives no prompts |
| Page.ExtractPromptsIdempotent | app/page.tsx:21-31 | filtering the newline-join of the prompts gives the same prompts |
| Page.RefilterPrompts | app/page.tsx:21-31 | one-line trimmed strings that pass both tests survive a second pass over their join |
| Page.LinesOfJoin | app/page.tsx:22-23 | the trimmed lines of a newline-join of trimmed single lines are those lines |
| Page.EnhancedPrompt | app/page.tsx:60-63 | the `{original, enhanced}` record of one prompt |
| Page.PairWithEnhanced | app/page.tsx:60-63 | one pair per prompt, in order, holding the prompt and the enhancer's result for it |
| Page.Decimal | app/page.tsx:79 | `${n}` is a non-empty run of digits without a leading zero that reads back as `n` |
| Page.Header | app/page.tsx:79 | `===== PROMPT n =====`; `Page.BlockStartsWithHeader` places it at the head of each block |
| Page.Block | app/page.tsx:79 | the text of one item; `Page.ExportBlockAt` places it in the export |
| Page.Blocks | app/page.tsx:78-79 | one block per item, numbered from one |
| Page.ExportContent | app/page.tsx:78-80 | the download's content; `Page.ExportEmptyIff`, `ExportAppend`, `ExportUpTo`, `ExportPrefix` and `ExportBlockAt` state its layout |
| Page.ExportEmptyIff | app/page.tsx:78-80 | the export is empty exactly when there is nothing to export |
| Page.ExportAppend | app/page.tsx:78-80 | one more item adds a newline and its block to the export |
| Page.ExportUpTo | app/page.tsx:78-80 | the export of the first k + 1 items is that of the first k, a newline unless k is 0, and block k |
| Page.ExportPrefix | app/page.tsx:78-80 | the export of a prefix of the items is a prefix of the export |
| Page.BlockStartsWithHeader | app/page.tsx:79 | every block starts with its `===== PROMPT n =====` header line |
| Page.ExportBlockAt | app/page.tsx:78-80 | block k follows the export of the first k items and a newline, and starts with the header carrying k + 1 |
| Pipeline.UploadToPairs | app/page.tsx:55-63 | when a parenthesised content longer than two units exists, the route's text is the first heuristic's, its prompts are the trimmed kept contents that pass both filters, and there is one pair per prompt holding it and the enhancer's result |
| Pipeline.MatchAtGroup | app/api/extract-pdf/route.ts:21 | tried where a `(word)` group starts, `\((.*?)\)` matches exactly that group and encloses the word |
| Pipeline.GroupsMatches | app/api/extract-pdf/route.ts:21 | the matches in back-to-back groups are the groups themselves |
| Pipeline.GroupsContents | app/api/extract-pdf/route.ts:21-24 | the contents found in back-to-back groups are the grouped words, in order |
| Pipeline.NoParenNoMatch | app/api/extract-pdf/route.ts:21-27 | without an opening parenthesis the first pattern matches nowhere and the first heuristic yields nothing |
| Pipeline.StreamBlockMatch | app/api/extract-pdf/route.ts:31 | at the start of "stream", whitespace, a plain body, whitespace, "endstream", the stream pattern matches the whole text |
| Pipeline.StreamBlockSpans | app/api/extract-pdf/route.ts:31 | such a text is the one match of the stream pattern |
| Pipeline.MarkerAtBlockStart | app/api/extract-pdf/route.ts:35 | the marker pattern matches "stream" and its whitespace at the start of such a text |
| Pipeline.MarkerAtBlockEnd | app/api/extract-pdf/route.ts:35 | the marker pattern matches the whitespace and "endstream" at its end |
| Pipeline.NoMarkerInBody | app/api/extract-pdf/route.ts:35 | the marker pattern matches nowhere inside a body without whitespace or "s" |
| Pipeline.StreamBlockMarkers | app/api/extract-pdf/route.ts:35 | the marker scan of such a text finds the leading and the trailing marker and nothing else |
| Pipeline.StreamBlockStripped | app/api/extract-pdf/route.ts:35 | deleting the markers leaves the body |
| Pipeline.StreamBlockText | app/api/extract-pdf/route.ts:29-40 | a file that is one stream object with a plain body and no `(` gives its body sanitised |
| Pipeline.GluedNoStreamMatch | app/api/extract-pdf/route.ts:31 | when "stream" is followed by a unit that is neither whitespace nor "s" and the body has no "s", the stream pattern matches nowhere |
| Pipeline.GluedStreamText | app/api/extract-pdf/route.ts:29-45 | such a file without `(` falls through to the fallback and gives the whole input sanitised |
| WorkedInputs.HelloContents | app/api/extract-pdf/route.ts:21-24 | the contents of "(hello)(a)(world wide)" are "hello", "a" and "world wide" |
| WorkedInputs.ParenExample | app/api/extract-pdf/route.ts:17-27 | "(hello)(a)(world wide)" gives "hello\nworld wide": the one-unit content is dropped |
| WorkedInputs.BinSanitized | app/api/extract-pdf/route.ts:36 | sanitising "BIN", U+0001, "RY" gives "BIN RY" |
| WorkedInputs.BinExample | app/api/extract-pdf/route.ts:29-40 | "stream\nBIN\x01RY\nendstream" gives "BIN RY" |
| WorkedInputs.NulSanitized | app/api/extract-pdf/route.ts:44 | sanitising "stream", NUL, "BINARY", NUL, "endstream" turns the two NULs into spaces |
| WorkedInputs.SanitizeSpliced | app/api/extract-pdf/route.ts:44 | three clean texts joined by NULs sanitise to the same texts joined by spaces |
| WorkedInputs.NulExample | app/api/extract-pdf/route.ts:29-45 | "stream\x00BINARY\x00endstream" gives "stream BINARY endstream", of the same length |
| WorkedInputs.ShortLinesDropped | app/page.tsx:24 | "Page 12", "1234" and "hi" fail the first filter; "Page 12" is page furniture and "1234" is only digits |
| WorkedInputs.FoxKept | app/page.tsx:21-31 | "The quick fox jumps" is its own only prompt |

## Left out

- Decoding the upload as UTF-8 (`Buffer.toString('utf-8')`) is not modelled. `ExtractPdf.Post` takes the decoded string, so replacement characters for invalid bytes are not covered.
- `request.formData()`, `NextResponse.json` and the HTTP transport are left out. `ExtractPdf.Post` takes the field as present or absent. A field holding the empty string is falsy and gets the 400 response, like a missing one. A field holding a non-empty string passes the guard, then `arrayBuffer` throws, and the route answers 500 and writes to `console.error`. That path, and any other exception, is not modelled.
- `enhance80sPrompt` comes from a library that is not part of this model. It draws phrases at random, so `Page.PairWithEnhanced` takes it as a parameter that also sees the call's index. The claim that it only appends to its input is not stated.
- React state, the file picker, `fetch` to the route, the clipboard, the Blob download and all rendering are user-interface plumbing and are not modelled. `app/layout.tsx` is not part of this model.
- ExtractPdf.StripMarkers: its contract says only that deleting the markers keeps the remaining units in order. It does not say which units are deleted.
- JsRegExp.Erase: its contract gives the length of the result and that it is an order-preserving deletion from the input. It names the kept units only for one or two spans (`JsRegExp.EraseTwo`).
- ExtractPdf.StreamHeuristicClean: states that the stream heuristic's text is clean and non-empty exactly when a match exists. It does not relate each line of its text to one stream match.
- Strings beyond the Basic Multilingual Plane are not split into surrogate pairs by `JsRuntime.Str`. That helper only builds the ASCII literals of the source.
