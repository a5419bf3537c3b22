# Mermaid post-processing and diagram history, modelled in Dafny

This project models the server-side core of a diagram generator. A language model answers a
prompt with text that should be Mermaid source. The core then cleans that text and keeps a
history of the diagrams a user saved.

The model covers:

- **The post-processing chain** (`Pipeline`). It strips Markdown code fences (`Fences`) and
  decodes HTML entities (`Entities`). It cuts the text down to the first diagram keyword
  (`Extract`), decodes entities again, drops byte-order marks and trims. When the result opens
  with `flowchart` or `graph`, it runs the flowchart sanitizer.
- **The flowchart sanitizer** (`Passes`, `Flowchart`). It normalises special spaces and turns
  semicolons into line breaks. It quotes `subgraph` titles and splits fused lines and headers.
  It rewrites labelled edges, single-node lines, decision nodes, square nodes and round nodes.
  Finally it appends a closing double quote to every line with an odd number of them. The two
  loops over the lines are methods over an array of lines. Each is proved equal to a function
  on the text.
- **The label escaper** (`Label`). It turns typographic quotes into plain ones and drops
  byte-order marks. It turns escaped and plain double quotes into single quotes, collapses
  line breaks with the whitespace around them, and trims.
- **The diagram history** (`History`). A `Store` class holds the item properties as a map and
  the index property as a sequence. Its methods save, delete, clear and list a page.
  `normalizeHistoryEntry_`, the limit and offset clamping and the page are functions.

Two modules are shared by the rest:

- `JsText` states the string operations of JavaScript that the code relies on: `trim`, `\s`,
  `\w`, `split`/`join`, literal global replacement and character-class replacement.
- `Rewrite` states the left-to-right scanning discipline of `String.prototype.replace` with a
  regular expression. It proves the generic facts every pass uses: which characters a
  replacement can produce, and which characters it only moves.

Every regular expression of the core is written out as a scanner over the text. The scanner
follows JavaScript's leftmost match, its greedy and lazy quantifiers and, where it matters,
its backtracking. Characters are Unicode code points.

Where the repository's tests expect something the code does not do, the model follows the
code. Two cases:

- The tests expect `subgraph["Title"]:::class` to become `subgraph SG1["Title"]`; the code has
  no such rewrite.
- The tests expect runs of single quotes in a label to be collapsed. The code keeps them, and
  `Label.EscapeKeepsRepeatedQuotes` proves that it does.

## Model

| member | source | states |
|---|---|---|
| JsText.Trim | main.js:204 | the result has no whitespace at either end, holds only characters of the input, and is empty exactly when the input is all whitespace |
| JsText.TrimOver | main.js:204 | trimming returns exactly the text between the leading and trailing whitespace runs |
| JsText.ReplaceAll | main.js:210-217 | a literal global replacement writes only characters of the text or of the replacement, never lengthens the text when the replacement is not longer than the pattern, and changes nothing when the pattern's first character never occurs |
| JsText.NoMatchKeeps | main.js:210-217 | a global replacement whose pattern occurs nowhere leaves the text unchanged |
| JsText.ReplaceAllKeepsIff | main.js:210-217 | a replacement by something shorter leaves the text unchanged if and only if the pattern occurs nowhere |
| JsText.MapChars | main.js:232 | a character-class replacement keeps the length and changes exactly the characters of the class, each into the substitute |
| JsText.MapCharsAppend | main.js:232 | a character-class replacement of two joined texts is the replacement of each, joined |
| JsText.RemoveChars | main.js:184 | removing a character class keeps exactly the characters outside the class |
| JsText.RemoveCharsAppend | main.js:184 | removing a character class from two joined texts removes it from each, joined |
| JsText.Lines | main.js:296 | splitting on line feeds gives at least one line and no line holds a line feed |
| Rewrite.ReplaceFromOk | main.js:265 | a property of characters that holds of everything a global replacement writes and keeps holds of its whole result |
| Rewrite.ReplaceFromOnlyMoves | main.js:269-274 | when every single replacement only rewrites characters of a class, the whole global replacement does too |
| Rewrite.ReplaceFromAt | main.js:265 | when the first match of a global replacement is at `p`, the result is the text before `p`, that match's replacement, and the replacement run on from the match's end |
| Rewrite.ReplaceLast | main.js:269 | a global replacement whose only match runs to the end of the text and writes back what it matched leaves the text unchanged |
| Rewrite.ReplaceFirstAt | main.js:286 | a replacement without the `g` flag writes out its first match and copies the rest of the text as it is |
| Entities.ReplaceInOrder | main.js:209-217 | applying the entity rows in order never lengthens the text and leaves a text without `&` unchanged |
| Entities.DecodeHtmlEntities | main.js:207-219 | an absent input decodes to the empty text; decoding never lengthens the text; a text without `&` is returned unchanged |
| Entities.EntitiesDoNotOverlap | main.js:210-217 | two different entity references never match at the same place, so the rows cannot interfere |
| Entities.StageStep | main.js:209-217 | each row of the table turns every token of one stage of an escaped text into its token of the next stage |
| Entities.StagesFrom | main.js:209-217 | running the remaining rows on a stage gives the original text with every `&nbsp;` turned into a space |
| Entities.DecodeEscaped | main.js:207-219 | decoding an HTML-escaped text gives the text back, with every `&nbsp;` in it turned into a space |
| Entities.DecodeEscapeRoundTrip | main.js:207-219 | decoding undoes escaping if and only if the text contains no `&nbsp;` |
| Entities.EscapeKeeps | main.js:209-217 | HTML escaping, the partner of decoding, leaves a text without `&`, `<`, `>`, `"` or `'` unchanged |
| Entities.DecodeNotIdempotent | main.js:209-217 | decoding is a single pass: `&amp;quot;` decodes to `&quot;`, which decodes again to `"` |
| Entities.DecodeQuot | tests/decodeHtmlEntities.test.js:7 | `&quot;` decodes to `"` |
| Entities.DecodeAmp | tests/decodeHtmlEntities.test.js:13 | `&amp;` decodes to `&` |
| Entities.DecodeMarkup | tests/decodeHtmlEntities.test.js:18 | `&lt;b&gt;Hello&lt;/b&gt;` decodes to `<b>Hello</b>` |
| Entities.DecodePlainText | tests/decodeHtmlEntities.test.js:27 | a text without entities decodes to itself |
| Entities.DecodeNothing | tests/decodeHtmlEntities.test.js:31-38 | an absent text and the empty text both decode to the empty text |
| Fences.StripOpeningFence | main.js:202 | what is left is a suffix of the text, and the text is unchanged unless it opens with a fence after leading whitespace |
| Fences.OpeningFenceCut | main.js:202 | after a fence at the head, a `mermaid` tag in any case goes with the whitespace after it; any other text after the fence stays, less the whitespace before it |
| Fences.StripClosingFence | main.js:203 | what is left is a prefix of the text; the text is unchanged unless it ends with a fence before trailing whitespace, and otherwise at least the fence goes |
| Fences.StripMarkdownCodeFences | main.js:199-205 | an absent input gives the empty text; the result is trimmed, no longer than the input and made of its characters |
| Fences.StripPlainText | main.js:199-205 | a text without backticks is only trimmed |
| Fences.StripFencedBlock | main.js:199-205 | a trimmed body inside a fenced block, whatever the whitespace around the fences and with or without a `mermaid` tag in any case, comes out as the body |
| Fences.OpeningOfBlock | main.js:202 | the opening fence, its tag and the whitespace before it are removed |
| Fences.ClosingOfBlock | main.js:203 | the closing fence and the whitespace around it are removed |
| Fences.StripOtherTag | main.js:199-205 | a block whose tag is not `mermaid` in any case keeps the tag in front of its body; only the fences and the outer whitespace go |
| Fences.StripJsBlock | main.js:202-204 | `` ```js\ncode\n``` `` gives `js\ncode`: only `mermaid` is an optional part of the fence |
| Fences.StripTaggedBlock | tests/stripMarkdownCodeFences.test.js:11-15 | a block tagged `mermaid` gives its body |
| Fences.StripUpperCaseTag | tests/stripMarkdownCodeFences.test.js:17-21 | the tag is matched in any case |
| Fences.StripPaddedFences | tests/stripMarkdownCodeFences.test.js:23-27 | whitespace around the fences is removed |
| Fences.StripEmptyBlock | tests/stripMarkdownCodeFences.test.js:54-57 | an empty block gives the empty text |
| Fences.StripKeepsPlainText | tests/stripMarkdownCodeFences.test.js:37-40 | a plain trimmed text is returned unchanged |
| Extract.KeywordsWellFormed | main.js:234-238 | every diagram keyword is non-empty and spelt with letters, digits and hyphens |
| Extract.FindDiagramStart | main.js:241-242 | the first index at or after the start where a line opens with a keyword; no earlier index qualifies; `None` exactly when no index does |
| Extract.FoundIsFirst | main.js:241-242 | the index the scan finds is a first diagram start, and no other index is one |
| Extract.CleanForExtract | main.js:223-232 | after decoding, fence removal and space normalisation the text holds no special space and no three backticks in a row |
| Extract.SpacesNormalised | main.js:232 | normalising special spaces leaves none of them and creates no run of backticks |
| Extract.FenceRemovalLeavesNone | main.js:229 | removing every three-backtick marker, leftmost first, leaves no three backticks in a row |
| Extract.DiagramFrom | main.js:244-251 | the result is trimmed; when some line opens with a keyword, the result is the text from the first such line on, trimmed, and opens with the keyword; otherwise it is the whole text trimmed |
| Extract.DiagramFromStart | main.js:246-247 | the text cut at a diagram start and trimmed opens with the keyword and keeps the cleaned text's properties |
| Extract.TrimStartsAtKeyword | main.js:246-247 | trimming the text from a diagram start leaves the keyword at its head |
| Extract.ExtractMermaidDiagram | main.js:222-252 | an absent input gives the empty text; the result is trimmed and has no fence run or special space; when the cleaned text has a diagram start, the result is the cleaned text from the first one on, trimmed, and opens with a keyword; else it is the cleaned text trimmed |
| Extract.CleanKeepsPlainText | main.js:223-232 | a text without `&`, backticks or special spaces passes the cleaning steps unchanged |
| Extract.LeadingDiagram | main.js:241-248 | a trimmed text that opens with a keyword is extracted whole |
| Extract.KeywordOpenings | main.js:234-238 | every keyword has at least two characters and opens, up to case, with one of the letters or letter pairs that tell prose from a diagram |
| Extract.ProseOpening | main.js:241 | a line whose first two characters open no keyword cannot be where a keyword starts |
| Extract.ExtractAfterLine | main.js:241-247 | a diagram after one line of prose that opens no keyword is returned from its keyword on; the prose line is cut away |
| Extract.ExtractFenced | main.js:229-247 | a diagram on lines of its own inside a fenced `mermaid` block is returned without the fences |
| Extract.ExtractEscapedAfterLine | main.js:226-247 | a line of HTML-escaped prose before a diagram is decoded and then cut away |
| Extract.ExtractProse | main.js:251 | a single trimmed line of prose that opens no keyword is returned as it is |
| Extract.ExtractFlowchart | tests/extractMermaidDiagram.test.js:12-16 | a flowchart at the beginning is extracted whole |
| Extract.ExtractAfterProse | tests/extractMermaidDiagram.test.js:6-10 | `Here is a diagram:` on the line before `flowchart TD\n  A --> B` is cut away |
| Extract.ExtractFencedBlock | tests/extractMermaidDiagram.test.js:18-22 | the `` ```mermaid `` fences around the diagram are dropped |
| Extract.ExtractEscapedMarkup | tests/extractMermaidDiagram.test.js:24-33 | the escaped `<div>` before the diagram is decoded and cut away; the decoded closing tag stays in the result |
| Extract.ExtractProseOnly | tests/extractMermaidDiagram.test.js:35-38 | a sentence without a keyword is returned as it is |
| Extract.ExtractFirstOfSeveral | tests/extractMermaidDiagram.test.js:45-50 | of `sequenceDiagram` and a later `graph`, the text is cut at the first |
| Extract.ExtractUpperCaseKeyword | tests/extractMermaidDiagram.test.js:52-56 | the keyword is matched in any case |
| Label.ReplaceEscapedQuotes | main.js:381 | escaped-quote replacement writes only characters of the text and single quotes, and never lengthens the text |
| Label.EscapedQuotesGone | main.js:381 | afterwards no backslash stands right before a double quote |
| Label.NoQuoteEscapesKept | main.js:381 | a text without double quotes is unchanged |
| Label.NoBackslashKept | main.js:381 | a text without backslashes is unchanged |
| Label.EscapedQuotesSplit | main.js:381 | the replacement works piece by piece when the first piece does not end in a backslash |
| Label.CollapseLineBreaks | main.js:383 | the result holds no line feed, adds only spaces, and is the text itself when it had no line feed |
| Label.LineBreaksSplit | main.js:383 | collapsing works piece by piece when the first piece does not end in whitespace |
| Label.LineBreakCollapses | main.js:383 | a whitespace run holding a line feed becomes exactly one space |
| Label.EscapeFlowLabel | main.js:375-385 | an absent label gives the empty text; the result is trimmed, holds no double quote, line feed, typographic quote or byte-order mark, and its characters come from the label or are single quotes or spaces |
| Label.CleanLabelKept | main.js:375-385 | a trimmed label free of the rewritten characters comes back unchanged |
| Label.EscapeIdempotent | main.js:375-385 | escaping twice is escaping once |
| Label.QuoteMarksBecomeApostrophes | main.js:377-382 | on a trimmed one-line label without backslashes or byte-order marks, escaping turns every quote mark into a single quote and changes nothing else |
| Label.QuotesThenBreaks | main.js:377-384 | for a label without backslashes or byte-order marks, escaping turns every quote mark into a single quote, then collapses line breaks, then trims |
| Label.BomDropped | main.js:380 | a byte-order mark at the front is dropped |
| Label.PlainQuotesOnly | main.js:380-384 | a label without typographic quotes or byte-order marks goes through the last four steps only |
| Label.LineBreakJoins | main.js:383-384 | two clean words separated by whitespace that holds a line break come out joined by one space |
| Label.QuotelessEscape | main.js:383-384 | a label without quote marks or byte-order marks only has its line breaks collapsed and is trimmed |
| Label.PaddingTrimmed | main.js:384 | one-line whitespace around a clean label is trimmed away |
| Label.CleanSpacedKept | main.js:384 | a label free of rewritten characters is only trimmed |
| Label.QuotedWord | main.js:377-382 | a word between any two quote marks comes out between two single quotes |
| Label.EscapedQuotedWord | main.js:381-382 | a word between two escaped double quotes comes out between two single quotes, whatever the number of backslashes |
| Label.EscapeNothing | tests/escapeFlowLabel.test.js:6-9 | an absent label escapes to the empty text |
| Label.EscapePlainWords | tests/escapeFlowLabel.test.js:11-14 | plain words are returned unchanged |
| Label.EscapeTypographicQuotes | tests/escapeFlowLabel.test.js:16-29 | each typographic quote pair around `Hello` becomes `'Hello'` |
| Label.EscapeBom | tests/escapeFlowLabel.test.js:31-33 | a leading byte-order mark is removed |
| Label.EscapeEscapedQuotes | tests/escapeFlowLabel.test.js:35-38 | escaped double quotes with one or two backslashes become single quotes |
| Label.EscapeStraightQuotes | tests/escapeFlowLabel.test.js:40-42 | plain double quotes become single quotes |
| Label.EscapeKeepsRepeatedQuotes | tests/escapeFlowLabel.test.js:44-47 | runs of single quotes are kept as they are, not collapsed |
| Label.EscapeNewlines | tests/escapeFlowLabel.test.js:49-53 | line feeds, a carriage return with a line feed, and blank lines between two words become one space |
| Label.EscapePadding | tests/escapeFlowLabel.test.js:55-57 | surrounding whitespace is trimmed |
| Label.EscapeMixed | tests/escapeFlowLabel.test.js:59-62 | a byte-order mark, padding, typographic and plain double quotes and a line feed together give `'Hello' World  'Test'` |
| Passes.NormalizeSpaces | main.js:260-262 | no carriage return or special space is left, only spaces are added, and the text never grows |
| Passes.NormalizedKept | main.js:260-262 | a text without carriage returns or special spaces is unchanged |
| Passes.CarriageReturnDropped | main.js:260-262 | a carriage return is removed, a special space becomes a plain one, and the rest is unchanged |
| Passes.CarriageReturnCase | tests/main.test.js:11-15 | `A\r --> B\u3000` becomes `A --> B ` at this step; the final trim gives `A --> B` |
| Passes.SemicolonAt | main.js:265 | a match starts exactly at a semicolon, covers only whitespace after it, and is replaced by a line feed |
| Passes.SplitStatements | main.js:265 | no semicolon is left, only line feeds are added, and apart from semicolons and whitespace the text reads as before |
| Passes.StatementsSplit | main.js:265 | two statements ended by semicolons, the first followed by a space, come out one per line, the space dropped |
| Passes.StatementsCase | tests/main.test.js:17-23 | `A-->B; B-->C;` becomes `A-->B\nB-->C\n` at this step; the final trim gives `A-->B\nB-->C` |
| Passes.QuotedTitle | main.js:269 | the rewrite of `subgraph["Title"]` writes only characters of the text or its own, and changes only brackets and whitespace |
| Passes.QuoteBracketedSubgraphs | main.js:269 | the pass adds only the sanitizer's own characters and changes only brackets and whitespace |
| Passes.SubgraphTitleQuoted | main.js:269 | `subgraph["Title"]` becomes `subgraph "Title"`: the keyword keeps its case and the whitespace before it, the bracket and the whitespace before it become one space, and the text after the match is kept |
| Passes.QuoteBracketedSubgraphsCase | tests/main.test.js:25-29 | `subgraph["Title"]:::class` becomes `subgraph "Title":::class`; no `SG1` id is generated |
| Passes.BlockKeywordAt | main.js:274 | a match has the length of `end`, `style`, `classDef` or `subgraph` (0 for none), lies inside the text, and no word character follows it |
| Passes.FusedKeywordAt | main.js:274 | a fused keyword match writes only characters of the text and a line feed, and moves only whitespace |
| Passes.SplitFusedLines | main.js:274 | the pass adds only line feeds and changes only whitespace |
| Passes.FusedWordSplit | main.js:274 | a word with a block keyword glued to its end is split by a line feed just before the keyword |
| Passes.SplitFusedNode | tests/main.test.js:37-41 | `node5subgraph` becomes `node5\nsubgraph` |
| Passes.SplitFusedBackend | main.js:274 | `Backend` becomes `Back\nend`: the pattern has no word boundary before the keyword |
| Passes.LabelEnd | main.js:280 | the lazy label ends within 60 characters of its start and before its target, and every label character is admitted by the class |
| Passes.LabelStart | main.js:280 | the label lies within 60 characters, before its target, and is made of admitted characters |
| Passes.PipeFreeLabel | main.js:281 | the escaped label holds no pipe, so the pipe replacement never changes it |
| Passes.EdgeAt | main.js:280-283 | a labelled-edge match writes only characters of the text and the sanitizer's own |
| Passes.LabelEdges | main.js:280-283 | the pass adds only the sanitizer's own characters |
| Passes.LabelEdgesKeeps | main.js:280 | a text without `-` is unchanged |
| Passes.EdgeRewritten | main.js:280-283 | an edge `a -- label -- b` with a one-word label of at most 60 characters becomes `a -->`, the label between two pipes, a space and `b` |
| Passes.EdgeCase | tests/main.test.js:50-54 | `A -- Label -- B` becomes `A -->`, then `Label` between two pipes, then ` B` |
| Passes.HeaderText | main.js:286-288 | the split header writes only characters of the text, spaces and line feeds, and moves only whitespace |
| Passes.SplitHeader | main.js:286-288 | the pass adds only spaces and line feeds and changes only whitespace |
| Passes.HeaderSplit | main.js:286-288 | `flowchart DIR stmt` becomes `flowchart DIR` and `stmt` on the next line, the keyword in its own case and one space before the direction; what follows the header's line is copied as it is, even another header |
| Passes.SplitHeaderCase | tests/main.test.js:56-60 | `flowchart LR A-->B` becomes `flowchart LR\nA-->B` |
| Passes.NodeText | main.js:291-293 | a single-node line becomes a bracketed node with exactly two double quotes |
| Passes.NormalizeSingleNodes | main.js:291-293 | the pass adds only the sanitizer's own characters |
| Passes.SingleNodeRewritten | main.js:291-293 | a text that is one name and a quoted clean label becomes `name["label"]` |
| Passes.SingleNodeCase | tests/main.test.js:80-86 | `myNode "My Label"` becomes `myNode["My Label"]` |
| Passes.Unwrapped | main.js:315-318 | removing surrounding quotes keeps only characters of the text |
| Passes.DiamondMarks | main.js:319-321 | no double quote, single quote or ASCII parenthesis is left, and only their replacements are added |
| Passes.OneLine | main.js:322 | the result is trimmed, holds no line feed and adds only spaces |
| Passes.DecisionLabel | main.js:315-323 | the cleaned decision text is non-empty and trimmed, holds only safe characters, and comes from the label or the replacements |
| Passes.DecisionNode | main.js:324-327 | a decision text without braces or brackets gives `id{t}`, with no double quote; a text with one gives a boxed node, and only then does the node hold exactly two double quotes |
| Passes.FixDecisionNodes | main.js:314-328 | the pass adds only the sanitizer's own characters |
| Passes.DiamondRewritten | main.js:314-328 | a text that is one decision node `id{raw}` becomes the decision node of `id` and the cleaned text of `raw` |
| Passes.QuotedDecisionLabel | main.js:315-323 | the decision text of a plain word in double quotes is the word |
| Passes.DecisionQuotesDropped | tests/main.test.js:62-66 | `id{"Label"}` becomes `id{Label}` |
| Passes.QuotesInside | main.js:336 | the inside of a quoted label keeps no double quote and gains only single quotes |
| Passes.ShapeNode | main.js:332-339 | a square or round node holds exactly two double quotes |
| Passes.QuoteSquareNodes | main.js:331-340 | the pass adds only the sanitizer's own characters |
| Passes.QuotedSquareKept | main.js:331-338 | a square node already in double quotes, with none inside, is written back as it is, and so is the text before it |
| Passes.QuotedSquareCase | tests/main.test.js:74-78 | `id["テスト"]` is kept |
| Passes.TitledSquareCase | tests/main.test.js:31-35 | `subgraph MyID["My Title"]` is kept |
| Passes.PlainSquareQuoted | main.js:331-340 | a square node whose text holds no double quote or bracket becomes `id["` escaped text `"]` |
| Passes.EscapedSquareQuoted | main.js:331-340 | a square node whose text is a word between escaped double quotes gets the word in single quotes inside double ones |
| Passes.EscapedSquareCase | tests/main.test.js:43-48 | the square step alone turns `id[\"Label\"]` into `id["'Label'"]` |
| Passes.EscapedQuotesUnescaped | main.js:277 | step 5 turns the escaped double quotes around a node's word into single quotes |
| Passes.EscapedSquareRoute | tests/main.test.js:43-48 | as the sanitizer runs it, step 5 makes `id[\"Label\"]` into `id['Label']` and the square step makes that `id["'Label'"]` |
| Passes.QuoteRoundNodes | main.js:343-352 | the pass adds only the sanitizer's own characters |
| Passes.PlainRoundQuoted | main.js:343-352 | a round node whose text holds no double quote or parenthesis becomes `id("` escaped text `")` |
| Passes.RoundCase | main.js:343-352 | `A(Start)` becomes `A("Start")` |
| Flowchart.LinesOfJoin | main.js:296-311 | joining lines without line feeds and splitting again gives the lines back |
| Flowchart.JoinOfLines | main.js:355-363 | splitting and joining again gives the text back |
| Flowchart.MatchTitle | main.js:301 | a `subgraph` line's head ends right after the keyword; its title is non-empty, one line long and made of the line's characters |
| Flowchart.TitledLine | main.js:309 | the quoted title line holds exactly two double quotes and only characters of the head, the title or the sanitizer's own |
| Flowchart.TitleLine | main.js:298-309 | a line that is rewritten holds exactly two double quotes, and only the sanitizer's characters are added |
| Flowchart.TitleLineIdempotent | main.js:298-309 | quoting a title is done once: a second pass leaves the line alone |
| Flowchart.TitledCase | main.js:301-309 | where the loop body rewrites a line, the new line is the head, one space and the escaped title in double quotes |
| Flowchart.TitleQuoted | main.js:296-309 | a `subgraph` line with a bare title becomes the keyword, one space and the escaped title in double quotes; trailing whitespace is dropped |
| Flowchart.TitleQuotedCase | main.js:301-309 | `subgraph My Title` becomes `subgraph "My Title"` |
| Flowchart.RetitleLine | main.js:299-309 | where the loop body moves on, the title rewrite leaves the line alone; otherwise it gives the rewritten line, with exactly two double quotes |
| Flowchart.RetitledLines | main.js:296-311 | the whole step adds only the sanitizer's own characters |
| Flowchart.QuoteSubgraphTitles | main.js:296-311 | the loop over the array of lines gives the step's text |
| Flowchart.CloseQuote | main.js:357-361 | a line with an odd number of double quotes gets one at its end, and every other line is kept |
| Flowchart.ClosedQuotes | main.js:355-363 | afterwards every line and the whole text hold an even number of double quotes, and only double quotes are added |
| Flowchart.CloseQuotes | main.js:355-363 | the loop over the array of lines gives the step's text |
| Flowchart.ClosedLine | main.js:355-363 | on a single line the step is that line's own repair |
| Flowchart.OpenQuoteClosed | main.js:357-361 | a node whose quoted text is left open, `id["text`, gets its closing double quote |
| Flowchart.OpenQuoteCase | tests/main.test.js:68-72 | `id["Label` becomes `id["Label"` |
| Flowchart.TrimEvenLines | main.js:372 | trimming keeps every line's double quotes even |
| Flowchart.Sanitize | main.js:255-373 | the sanitizer run pass by pass, with its two loops, gives `Sanitized` |
| Flowchart.SanitizedClean | main.js:255-373 | the output holds no carriage return, semicolon or special space |
| Flowchart.SanitizedBalanced | main.js:355-372 | the output is trimmed and holds an even number of double quotes, on every line and in all |
| Flowchart.SanitizedNone | tests/main.test.js:6-9 | a missing diagram sanitizes to the empty text |
| History.Take | main.js:479-480 | `slice(0, n)` is the prefix of length at most `n` |
| History.NormalizeEntry | main.js:474-487 | absent texts become empty; the prompt keeps its first 2000 and the code its first 8000 characters; short texts are kept whole; the other fields pass through |
| History.NormalizeIdempotent | main.js:474-487 | normalizing a normalized entry changes nothing |
| History.KeyInjective | main.js:394 | different ids have different property keys |
| History.Remove | main.js:451 | filtering keeps exactly the other ids and never lengthens the index |
| History.RemoveAbsent | main.js:451 | filtering out an id that is not there keeps the index as it is |
| History.RemoveIdempotent | main.js:451 | filtering twice is filtering once |
| History.SavedIndex | main.js:396-398 | the new id goes in front, the old ids follow in order, and at most 30 are kept |
| History.Evicted | main.js:396-397 | the kept ids followed by the cut-off ids are the new id followed by the old index |
| History.SafeLimit | main.js:424-426 | the limit is clamped to 1..30, and is 10 when not finite |
| History.SafeOffset | main.js:425-427 | the offset is kept when not negative, and is 0 when negative or not finite |
| History.Slice | main.js:428 | the window holds as many ids as lie between the bounds within the index |
| History.HasMoreMeansBeyond | main.js:436 | `hasMore` holds exactly when ids lie beyond the window |
| History.SortNewestFirst | main.js:435 | the items are sorted newest first and are a permutation of the input |
| History.PageOf | main.js:420-436 | the page carries the total, the clamped offset and limit, and `hasMore` exactly when ids lie beyond it; its items are newest first and are, as a multiset, the stored items of the window |
| History.Store.ReadIndex | main.js:466-472 | the index read back holds no empty id and exactly the stored non-empty ids |
| History.Store.Save | main.js:388-404 | the normalized item is stored under its key; the new index is the id in front of the old one, cut at 30; the items of the cut-off ids are deleted |
| History.Store.Delete | main.js:447-454 | an empty id changes nothing and reports failure; any other id loses its item and its places in the index |
| History.Store.Clear | main.js:456-464 | the items of every indexed id are deleted and the index is emptied |
| History.Store.ListPage | main.js:420-437 | the page is `PageOf` for the stored items and index, with the clamped limit and offset |
| History.Store.CollectPresent | main.js:429-434 | the loop collects the stored item of each id of the window, in order, skipping ids with none |
| History.SaveKeepsIndexed | main.js:392-402 | after a save with a fresh id every indexed id has its item, and no cut-off id does |
| History.SavedDistinct | main.js:396-398 | a save with a fresh id keeps the index free of repetitions |
| History.DeleteKeepsIndexed | main.js:447-453 | after a delete every remaining indexed id has its item, and the deleted id is neither indexed nor stored |
| Pipeline.Cleaned | main.js:180-184 | the text before the flowchart test is trimmed and holds no byte-order mark |
| Pipeline.PostProcessShape | main.js:180-191 | the returned text is trimmed and has no byte-order mark; a text that does not open as a flowchart is returned as cleaned |
| Pipeline.PostProcessFlowchart | main.js:186-188 | a flowchart comes out with no carriage return, semicolon or special space and with even double quotes on every line |
| Pipeline.PostProcessNone | main.js:180-188 | a missing response text gives the empty diagram |
| Pipeline.EmptyExtract | main.js:222-251 | nothing is extracted from an empty text |

## Left out

- The Gemini request, the API key handling, prompt building, retries and logging are not
  modelled. `rawText` is a parameter of `Pipeline.PostProcess`, with `None` for a missing
  text.
- The property service and JSON are not modelled. Stored items are values, not JSON text, so
  an item whose JSON fails to parse (skipped by the listing loops) cannot occur. A malformed
  index property, which `getHistoryIndex_` reads as empty, cannot occur either.
- `Utilities.getUuid()` and `Date.now()` are not modelled; they are the parameters `id` and
  `now` of `History.Store.Save`.
- `fitHistoryEntrySize_` (main.js:489 on) is not modelled. It shrinks an entry until its JSON
  text fits a size bound, so it depends on JSON lengths. `History.Store.Save` stores the
  normalized entry as it is.
- The `meta` field of a history entry is not modelled; `Fields` has the six other fields.
- `listDiagramHistory` and `getDiagramHistoryItem` are not modelled. They are reads of the
  same store that the page listing already covers.
- `Number(limit)` and `Number(offset)` are not modelled. `History.SafeLimit` and
  `History.SafeOffset` take the floored number, or `None` when it is not finite.
- `createdAt || 0` is not modelled: every stored item gets an integer `createdAt` from
  `Save`.
- JavaScript strings are sequences of UTF-16 code units; the model's characters are code
  points. They differ only for characters outside the Basic Multilingual Plane, which
  affects the 60-character edge-label bound and the `slice` bounds of
  `normalizeHistoryEntry_`.
- History.SortNewestFirst: states sorted and a permutation, not the stability of
  `Array.prototype.sort`, although the definition is stable.
- History.Slice: states the length of the window; its contents are the definition itself.
- Passes.LabelEdges, Passes.NormalizeSingleNodes, Passes.FixDecisionNodes,
  Passes.QuoteSquareNodes, Passes.QuoteRoundNodes, Passes.QuoteBracketedSubgraphs,
  Passes.SplitFusedLines and Passes.SplitHeader: their own contracts state where the
  characters of the output come from and what they keep, not the exact rewrite. The rewrite
  of each is stated by its lemmas: `EdgeRewritten`, `SingleNodeRewritten`,
  `DiamondRewritten`, `QuotedSquareKept`, `PlainSquareQuoted`, `EscapedSquareQuoted`,
  `PlainRoundQuoted`, `SubgraphTitleQuoted`, `FusedWordSplit` and `HeaderSplit`. These
  cover one node or edge in a text, not every text.
- Flowchart.RetitledLines: states character provenance only. The rewrite of each line is
  stated by `Flowchart.TitledCase` and `Flowchart.TitleQuoted`.
- The worked cases of tests/main.test.js are proved at the step that rewrites them. The other
  steps are not shown to leave those inputs alone. Where the final trim matters, the
  contract states the text before it.
- The repository's test for `subgraph["Title"]:::class` expects a generated `SG1` id. The code
  has no such rewrite, so neither does the model.
