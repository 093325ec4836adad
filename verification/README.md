# documentiq core in Dafny

This project models the text-processing core of documentiq, a browser
writing workbench, as pure Dafny functions with proved contracts. It covers
five parts of the application:

- **DOCX export** (`src/utils/export-to-docx.ts`, `src/utils/latex-to-omml.ts`,
  `src/utils/latex-to-html.ts`), split into four modules:
  - `EquationExtract`: the regex passes that turn `$$…$$` and `$…$` in the
    editor's HTML into `[EQUATION:DISPLAY:…]` and `[EQUATION:INLINE:…]`
    placeholders.
  - `NodeTree`: the walk over the parsed DOM that recognises those
    placeholders again.
  - `DocxAssembly`: how parsed nodes become formatted runs, paragraphs, list
    items and one numbered document.
  - `Escape`: the two markup escapers and the fallbacks of the two LaTeX
    converters.
- **Diff compare** (`src/views/diff-compare.tsx`, module `LineDiff`): the
  positional line diff and its two filters, the per-kind statistics, the
  swap of the two texts, and the rendering of the diff as text.
- **Text utilities** (`src/views/text-utilities.tsx`), in two modules:
  - `TextStats`: the statistics panel (characters, words, lines, sentences,
    paragraphs, reading time).
  - `TextTransforms`: the upper, lower, snake and kebab case conversions, the
    three-option text cleaner, and the duplicate-line remover.
- **Citation generator** (`src/views/citation-generator.tsx`), in two modules:
  - `CitationFormat`: splitting and joining of APA and MLA author lists, and
    the twenty manual templates (five styles × four source types).
  - `CitationList`: the required-field guard, the appending of a generated
    citation, and deletion by id.
- **Shared JavaScript string semantics** (module `JsString`):
  - `\s` and `trim` over the full ECMAScript white-space and line-terminator set;
  - `split` on a character class, and `join`;
  - UTF-16 length;
  - ASCII case mapping.

  `Wrappers` holds `Option` and `Result`.

Foreign code is passed in as a function parameter, so the model states what
the core does around it. There are three such parameters:

- the DOM parser (`parse`);
- MathJax with `mml2omml` (`engine`);
- the engine's Unicode `toLowerCase` (`Filters.lower`).

Where the code and its written description differ, the model follows the
code. The inline equation pattern `\$([^$]+?)\$` lets an inline equation
span a line feed, and the model keeps that. The lazy placeholder pattern
`(.*?)\]` cuts a display body at its first `]` and cannot cross a line
terminator; `NodeTree.BodyCutAtBracket` and `NodeTree.CaptureAt` state this.
A display placeholder found anywhere in a text node wins over an earlier
inline one, because the code tests the display match first
(`NodeTree.DisplayBeatsEarlierInline`).

## Model

| member | source | states |
|---|---|---|
| Escape.EscapeMarkupIsEncodeEach | src/utils/latex-to-omml.ts:45-52 | The five chained global replacements equal an independent per-character encoder. Replacing `&` first means no entity is escaped twice. |
| Escape.EscapeXmlSpec | src/utils/latex-to-omml.ts:45-52 | `escapeXml` output never grows shorter and contains no `<`, `>`, `"` or `'`. Every `&` in it starts an entity, text without special characters is unchanged, and decoding the entities gives back the input. |
| Escape.EscapeXmlInjective | src/utils/latex-to-omml.ts:45-52 | Two different inputs never escape to the same XML text. |
| Escape.EscapeHtmlSpec | src/utils/latex-to-html.ts:42-49 | The same guarantees hold for `escapeHtml`, whose apostrophe entity is `&#039;`. |
| Escape.EscapeHtmlInjective | src/utils/latex-to-html.ts:42-49 | Two different inputs never escape to the same HTML text. |
| Escape.DecodeEncodeEach | src/utils/latex-to-omml.ts:45-52 | Decoding the encoded text restores it, for either apostrophe entity. |
| Escape.OmmlFallback | src/utils/latex-to-omml.ts:36-42 | The fallback OMML is the fixed `m:oMath`/`m:r`/`m:t` wrapper around the XML-escaped LaTeX. Its payload contains no `<`, and unescaping the payload gives back the LaTeX. |
| Escape.ConvertLatexToOmml | src/utils/latex-to-omml.ts:18-43 | The converter returns the engine's OMML when the engine succeeds and the escaped fallback when it throws. |
| Escape.HtmlFallback | src/utils/latex-to-html.ts:36-38 | The fallback is a red italic `span` around the HTML-escaped LaTeX, and its payload unescapes to the LaTeX. |
| Escape.ConvertLatexToHtml | src/utils/latex-to-html.ts:20-40 | The converter returns the engine's markup or the escaped fallback. |
| EquationExtract.FindPair | src/utils/export-to-docx.ts:28 | Finds the first `$$` of a string, or reports that there is none. |
| EquationExtract.FindDollar | src/utils/export-to-docx.ts:29 | Finds the first `$` of a string, or reports that there is none. |
| EquationExtract.DisplayPassMatch | src/utils/export-to-docx.ts:28-36 | A `$$body$$` with a `$$`-free body becomes one display placeholder around the trimmed body, and scanning resumes after the closing `$$`. |
| EquationExtract.InlinePassMatch | src/utils/export-to-docx.ts:29-41 | A `$body$` with a non-empty `$`-free body becomes one inline placeholder around the trimmed body. |
| EquationExtract.DisplayPassIdentityIff | src/utils/export-to-docx.ts:28-36 | The display pass changes nothing exactly when the text holds no `$$` followed, without overlap, by another `$$`. |
| EquationExtract.InlinePassIdentityIff | src/utils/export-to-docx.ts:29-41 | The inline pass changes nothing exactly when no two `$` enclose a non-empty `$`-free span. |
| EquationExtract.DisplayPassExhaustive | src/utils/export-to-docx.ts:28-36 | After the global display replacement, no display span is left. |
| EquationExtract.DisplayPassIdempotent | src/utils/export-to-docx.ts:28-36 | Running the display pass twice is the same as running it once. |
| EquationExtract.ExtractWithoutSpans | src/utils/export-to-docx.ts:26-44 | HTML with no display span and no inline span is returned unchanged. |
| EquationExtract.ExtractWithoutDollar | src/utils/export-to-docx.ts:26-44 | HTML without `$` is returned unchanged. |
| EquationExtract.ExtractDisplayThenInline | src/utils/export-to-docx.ts:26-44 | A display span followed by an inline span gives a display placeholder followed by an inline placeholder. |
| EquationExtract.ExtractAcrossPlaceholder | src/utils/export-to-docx.ts:33-41 | The inline pass runs over the placeholders of the display pass. A `$` inside a display body can therefore pair with a later `$` across the placeholder's `]`. |
| EquationExtract.ExtractEmptyDisplay | src/utils/export-to-docx.ts:28-36 | `$$$$` becomes a display placeholder with an empty body. |
| NodeTree.CaptureAt | src/utils/export-to-docx.ts:58-59 | The lazy `(.*?)\]` capture ends at the first `]` and never crosses a line terminator. No capture means every `]` comes after a line terminator. |
| NodeTree.FirstMatchFrom | src/utils/export-to-docx.ts:58-59 | `match` finds the leftmost position where the marker and a capture both succeed. |
| NodeTree.TraverseText | src/utils/export-to-docx.ts:53-80 | A blank text node is dropped. Otherwise the node becomes an equation with a non-empty LaTeX body, or a text node carrying the text unchanged. |
| NodeTree.Traverse | src/utils/export-to-docx.ts:52-100 | Elements always become element nodes. Comments and other node kinds are dropped. |
| NodeTree.TraverseAll | src/utils/export-to-docx.ts:87-90 | The children loop never yields more nodes than it was given. |
| NodeTree.TraverseAllAppend | src/utils/export-to-docx.ts:87-90 | Traversal distributes over concatenation, so surviving nodes keep document order. |
| NodeTree.ElementTagLowered | src/utils/export-to-docx.ts:82-97 | The tag is lower-cased with its length kept. A tag that is already lower-case is kept, and the children are traversed. |
| NodeTree.ParseHtmlToNodes | src/utils/export-to-docx.ts:46-108 | Parsing yields at most one node per body child of the extracted HTML. |
| NodeTree.TextWithoutBracket | src/utils/export-to-docx.ts:53-80 | Text without `[` is dropped when blank and kept verbatim otherwise. |
| NodeTree.DisplayPlaceholderRoundTrip | src/utils/export-to-docx.ts:34-68 | A display placeholder around a single-line, `]`-free body is read back as an equation with exactly that body. |
| NodeTree.InlinePlaceholderRoundTrip | src/utils/export-to-docx.ts:39-77 | An inline placeholder around such a body is read back as an equation with that body. |
| NodeTree.BodyCutAtBracket | src/utils/export-to-docx.ts:58 | A display body containing `]` is read back only up to that `]`. |
| NodeTree.DisplayBeatsEarlierInline | src/utils/export-to-docx.ts:61-77 | When an inline placeholder comes before a display placeholder, the display one is what the node becomes. |
| NodeTree.InlinePlaceholderHasNoDisplay | src/utils/export-to-docx.ts:58-61 | An inline placeholder around a `[`-free body contains the display marker at no position, so the display match cannot fire on it. |
| NodeTree.FirstInlinePlaceholder | src/utils/export-to-docx.ts:59-77 | When there is no display match, a text that opens with the inline marker and a non-empty capture becomes an equation with that capture. |
| NodeTree.EmptyDisplayIsText | src/utils/export-to-docx.ts:61-79 | An empty display placeholder is not an equation and stays a text node. |
| DocxAssembly.CreateTextRun | src/utils/export-to-docx.ts:110-122 | A text run carries the node's content, or `""` when it has none, together with the three flags it was given. |
| DocxAssembly.FallbackRun | src/utils/export-to-docx.ts:162-170 | The fallback run holds the raw LaTeX in italic Cambria Math, size 24, colour 0070C0. |
| DocxAssembly.ProcessNode | src/utils/export-to-docx.ts:127-192 | Each text run has at least the formatting inherited from its ancestors. A fallback run appears only where building the math object failed. |
| DocxAssembly.FormattingTagsSwitchOn | src/utils/export-to-docx.ts:175-177 | `strong`/`b` switch bold on, `em`/`i` switch italic on and `u` switches underline on for everything below them. |
| DocxAssembly.FlagsPassThrough | src/utils/export-to-docx.ts:175-189 | Below no formatting tag, every text run has exactly the flags passed in. |
| DocxAssembly.TextRunsFollowTextNodes | src/utils/export-to-docx.ts:127-192 | The texts of the text runs are the tree's text contents in document order. Nothing is added and nothing is lost. |
| DocxAssembly.EquationMath | src/utils/export-to-docx.ts:140-158 | An equation whose math object builds yields exactly one math run holding the OMML. |
| DocxAssembly.EquationFallback | src/utils/export-to-docx.ts:159-172 | An equation whose math object fails yields exactly the fallback run. |
| DocxAssembly.SourceNeverFallsBack | src/utils/export-to-docx.ts:142-171 | The converter catches its own errors, so the source's catch branch is never taken. A failed engine yields the OMML fallback instead. |
| DocxAssembly.OrEmptyRun | src/utils/export-to-docx.ts:201 | A paragraph with no runs gets one empty text run. Otherwise its runs are kept. |
| DocxAssembly.BlockTagOneParagraph | src/utils/export-to-docx.ts:194-223 | `p`, `h1`, `h2` and `h3` each give exactly one paragraph. It carries the children's runs (or the empty run) and the matching heading level, and it is neither listed nor centred. |
| DocxAssembly.ListTagParagraphs | src/utils/export-to-docx.ts:224-243 | A `ul` or `ol` gives one paragraph per `li` child. Items are bulleted at level 0 under `ul` and numbered against `default-numbering` at level 0 under `ol`. |
| DocxAssembly.ListItems | src/utils/export-to-docx.ts:225-242 | Every list paragraph has at least one run, carries the list's style and has no heading. |
| DocxAssembly.ContainerTransparent | src/utils/export-to-docx.ts:244-248 | A `div` or `span` adds no paragraph of its own and yields its children's paragraphs in order. |
| DocxAssembly.StandaloneEquationCentered | src/utils/export-to-docx.ts:249-260 | A top-level equation is one centred paragraph holding its single math or fallback run. |
| DocxAssembly.BareTextNoParagraph | src/utils/export-to-docx.ts:261-273 | A top-level text node yields no paragraph. |
| DocxAssembly.NodeToParagraphs | src/utils/export-to-docx.ts:124-277 | Every paragraph has a run. Bullets are at level 0, and numbered items use `default-numbering` at level 0. |
| DocxAssembly.CreateDocument | src/utils/export-to-docx.ts:279-320 | The document has the nodes' paragraphs, or the single "Empty document" paragraph when there are none. Every numbered paragraph refers to a numbering definition that exists. |
| DocxAssembly.BodyTextOnlyIsEmptyDocument | src/utils/export-to-docx.ts:279-295 | HTML whose body holds only bare text yields the "Empty document" paragraph. |
| LineDiff.Lines | src/views/diff-compare.tsx:32-33 | Splitting on `\n` gives at least one line, and no line contains `\n`. |
| LineDiff.DiffOf | src/views/diff-compare.tsx:46-82 | There is one entry per index up to the longer side. Entry i is added, removed, unchanged or modified exactly as line i exists and compares, with 1-based line numbers. |
| LineDiff.DiffLines | src/views/diff-compare.tsx:46-84 | The loop builds the same entries, and it equals the functional definition. |
| LineDiff.ComputeDiff | src/views/diff-compare.tsx:29-85 | Two empty texts give no entries. Otherwise the entries describe the filtered lines of both texts. |
| LineDiff.ComputeStats | src/views/diff-compare.tsx:87-94 | The four counts add up to the total, which is the number of entries. |
| LineDiff.KindsPartition | src/views/diff-compare.tsx:88-93 | Every entry is counted under exactly one kind. |
| LineDiff.AddedRemovedCounts | src/views/diff-compare.tsx:47-64 | The added entries are the right side's surplus lines and the removed entries the left side's. At most one of the two is non-zero. |
| LineDiff.SwapExchangesCounts | src/views/diff-compare.tsx:96-101 | Swapping the texts exchanges the added and removed counts and keeps the others. |
| LineDiff.AllUnchangedIff | src/views/diff-compare.tsx:65-72 | Every entry is unchanged exactly when the filtered line lists are equal. |
| LineDiff.SelfDiffUnchanged | src/views/diff-compare.tsx:29-94 | A text compared with itself has only unchanged entries. |
| LineDiff.WhitespaceOnlyDifference | src/views/diff-compare.tsx:36-39 | With whitespace ignored, lines that differ only at their ends compare as unchanged. |
| LineDiff.CaseOnlyDifference | src/views/diff-compare.tsx:41-44 | With case ignored, lines that lower-case alike compare as unchanged. |
| LineDiff.RenderLine | src/views/diff-compare.tsx:110-116 | Each rendered line opens with the mark of its kind (`+ `, `- `, `~ `, or two spaces). The mark is followed by the right line, the left line, or left, arrow and right; an absent side prints `undefined`. |
| LineDiff.RenderOneLinePerEntry | src/views/diff-compare.tsx:110-117 | Splitting the copied diff on `\n` gives back exactly one rendered line per entry. |
| JsString.TrimEmptyIff | src/views/text-utilities.tsx:52 | `trim()` is empty exactly when the text is all white space. |
| JsString.JoinSplit | src/views/text-utilities.tsx:213-217 | Joining the `\n` pieces with `\n` restores the text. |
| JsString.SplitJoin | src/views/text-utilities.tsx:213-217 | Splitting a join of separator-free pieces gives the pieces back. |
| TextStats.WordCount | src/views/text-utilities.tsx:52 | The word count is zero exactly when the text is blank. |
| TextStats.WordCountIsRuns | src/views/text-utilities.tsx:52 | The word count is the number of maximal non-white-space runs. |
| TextStats.LineCount | src/views/text-utilities.tsx:53 | The line count is zero for the empty text and one more than the number of `\n` otherwise. |
| TextStats.SentenceCountZero | src/views/text-utilities.tsx:54 | There are no sentences exactly when the text is only white space and `.`, `!` and `?`. |
| TextStats.ParagraphCount | src/views/text-utilities.tsx:55 | The paragraph count is zero exactly when the text is blank. |
| TextStats.OneLineOneParagraph | src/views/text-utilities.tsx:55 | A non-blank text without a line feed is one paragraph. |
| TextStats.ReadingTime | src/views/text-utilities.tsx:58 | The reading time is the least whole number of minutes that covers the words at 200 words per minute. |
| TextStats.Statistics | src/views/text-utilities.tsx:49-69 | The characters without spaces never exceed the characters. The words, paragraphs and reading time are zero exactly when the text is blank, the lines exactly when it is empty, and the sentences exactly when it holds only white space and terminators. |
| TextTransforms.ConvertCase | src/views/text-utilities.tsx:72-116 | Upper and lower keep the length and leave no letter of the other case. Snake and kebab leave no white space and no capital. Apart from separators, they keep the text's non-white-space characters, lower-cased. |
| TextTransforms.SeparateWordsKeepsText | src/views/text-utilities.tsx:102-115 | After the separators are removed, the snake or kebab result is the lower-cased text without white space. |
| TextTransforms.LeadingSeparatorKept | src/views/text-utilities.tsx:103-106 | Leading white space before a capital leaves a separator at the front, because the leading-separator strip runs once. |
| TextTransforms.CaseConversionKeepsLetters | src/views/text-utilities.tsx:76-81 | Converting to upper or lower case changes only the case of letters. |
| TextTransforms.CaseConversionIdempotent | src/views/text-utilities.tsx:76-81 | Converting to upper or lower case twice is the same as converting once. |
| TextTransforms.CleanText | src/views/text-utilities.tsx:123-140 | Removing spaces yields tidy text with the same non-white-space characters. Removing line breaks or spaces leaves no `\n`, and removing special characters leaves only ASCII letters, digits and white space. With no option set, the text is unchanged. |
| TextTransforms.SqueezeSpaces | src/views/text-utilities.tsx:127 | The squeezed text has no white space at its ends and no two adjacent white-space characters, and every white-space character in it is a space. |
| TextTransforms.SqueezeSpacesIdempotent | src/views/text-utilities.tsx:127 | Squeezing twice is the same as squeezing once. |
| TextTransforms.StripSpecial | src/views/text-utilities.tsx:135 | Only ASCII letters, digits and white space remain, and every such character of the input is kept. |
| TextTransforms.StripSpecialSubsequence | src/views/text-utilities.tsx:135 | The stripped text is a subsequence of the input. |
| TextTransforms.StripSpecialIdempotent | src/views/text-utilities.tsx:135 | Stripping twice is the same as stripping once. |
| TextTransforms.Unique | src/views/text-utilities.tsx:214 | `[...new Set(lines)]` keeps each distinct line once, in order of first occurrence, and no line is lost. |
| TextTransforms.UniqueKeepsAll | src/views/text-utilities.tsx:214-215 | No line is dropped exactly when the lines are already distinct. |
| TextTransforms.RemoveDuplicates | src/views/text-utilities.tsx:212-219 | The output's lines are the distinct input lines, and the removed count is the difference in line counts. It is zero exactly when no line repeats. |
| TextTransforms.RemoveDuplicatesIdempotent | src/views/text-utilities.tsx:212-219 | Removing duplicates again removes nothing and changes nothing. |
| CitationFormat.AuthorList | src/views/citation-generator.tsx:40 | Splitting on `,`/`&`, trimming and dropping blanks yields only trimmed, non-empty, separator-free names. There is at most one name per piece. |
| CitationFormat.FormatAuthorApa | src/views/citation-generator.tsx:38-44 | Empty input gives `""`, one name is kept, and two names are joined with ` & `. |
| CitationFormat.FormatAuthorApaRoundTrip | src/views/citation-generator.tsx:38-44 | Re-splitting the APA author string gives back exactly the names it was formatted from. |
| CitationFormat.FormatAuthorApaNoNames | src/views/citation-generator.tsx:39-43 | A non-empty author field with no names prints `, & undefined`. |
| CitationFormat.FormatAuthorMla | src/views/citation-generator.tsx:46-52 | Empty input gives `""`, one name is kept, and two names are joined with `, and `. |
| CitationFormat.FormatAuthorMlaPair | src/views/citation-generator.tsx:50 | Re-splitting an MLA pair gives the first name and `and ` followed by the second. This is the one form that does not round-trip. |
| CitationFormat.FormatAuthorMlaEtAl | src/views/citation-generator.tsx:51 | Three or more names re-split to the first name and `et al.` |
| CitationFormat.FormatAuthorMlaNoNames | src/views/citation-generator.tsx:47-51 | A non-empty author field with no names prints `undefined, et al.` |
| CitationFormat.CitationOpensWithCredit | src/views/citation-generator.tsx:62-126 | Every template except the MLA video opens with the style's credit: APA-joined authors, MLA-joined authors, the raw authors, or for video the channel. |
| CitationFormat.MlaVideoOpensWithTitle | src/views/citation-generator.tsx:85 | The MLA video citation opens with the quoted title. |
| CitationFormat.VideoCreditsChannel | src/views/citation-generator.tsx:72-124 | A video credits the channel when one is given and the authors otherwise. |
| CitationFormat.IeeeAuthorsVerbatim | src/views/citation-generator.tsx:118-122 | IEEE prints the author field verbatim at the front. |
| CitationFormat.HarvardAlwaysDated | src/views/citation-generator.tsx:105-111 | Harvard always follows the credit with a parenthesised year, or `(n.d.)` when there is no year. |
| CitationFormat.ApaYearInserted | src/views/citation-generator.tsx:66-72 | An APA citation with a year is the yearless citation with ` (year)` inserted after the credit. |
| CitationFormat.JournalDoiLast | src/views/citation-generator.tsx:70-122 | In every style a journal's DOI clause comes last: nothing when there is no DOI, otherwise the style's prefix and the DOI. |
| CitationFormat.JournalDoiClause | src/views/citation-generator.tsx:70-122 | A journal citation is its DOI-free form followed by the DOI clause. |
| CitationFormat.HarvardUndated | src/views/citation-generator.tsx:105-111 | In Harvard a missing year prints exactly as the year `n.d.` would. |
| CitationFormat.ChicagoJournalUndated | src/views/citation-generator.tsx:96 | In a Chicago journal citation a missing year prints as `n.d.` |
| CitationFormat.ApaBookPublisher | src/views/citation-generator.tsx:66 | Giving an APA book a publisher inserts `. publisher` just before the final period of the publisher-less citation. |
| CitationFormat.ApaJournalMinimal | src/views/citation-generator.tsx:70 | An APA journal citation with no volume, issue, pages or DOI is the credit, the year, the title and the italic journal name. |
| CitationFormat.MlaChicagoBooksAgree | src/views/citation-generator.tsx:79-92 | MLA and Chicago format books identically. |
| CitationList.Generate | src/views/citation-generator.tsx:194-225 | The draft is refused with the fixed message exactly when it lacks a title or authors. Otherwise the list grows by one citation at the end, which carries the id, the source type, the fields and the formatted text under the current style only. |
| CitationList.Delete | src/views/citation-generator.tsx:278-281 | The result is exactly the citations whose id differs, and the count drops by the number of citations carrying the id. |
| CitationList.DeleteAppend | src/views/citation-generator.tsx:279 | Deleting from a concatenation deletes from both parts, so the order is kept. |
| CitationList.DeleteIdempotent | src/views/citation-generator.tsx:279 | Deleting twice is the same as deleting once. |
| CitationList.DeleteAbsent | src/views/citation-generator.tsx:279 | Deleting an id that no citation carries changes nothing. |
| CitationList.GenerateThenDelete | src/views/citation-generator.tsx:215-281 | Deleting a freshly generated citation by its new id restores the list. |

## Left out

- DocxAssembly.NodeToParagraphs: paragraph `spacing` (after 200, after 100, before 200) is not modelled. Spacing changes only layout, not content or structure.
- DocxAssembly.ProcessNode: the `Math` object and its `root` injection (export-to-docx.ts:146-158) become `MathRun(omml)`. The `docx` internals are foreign code.
- DocxAssembly.ProcessNode: the whole `try` block is the `tryMath` parameter, and `console.error` in the catch is omitted because it is logging only.
- Escape.ConvertLatexToOmml: MathJax and `mml2omml` are the `engine` parameter, and `console.error` is omitted. Escape.ConvertLatexToHtml is treated the same way.
- `downloadAsDocx` and `copyAsDocx` (export-to-docx.ts:322-354) are not modelled. `Packer.toBlob`, `saveAs` and the clipboard are I/O; DocxAssembly.ExportDocument models the document they would write.
- NodeTree.ParseHtmlToNodes: `DOMParser` is the `parse` parameter. HTML parsing is foreign code.
- NodeTree.Traverse: tag names are lowered with the ASCII mapping, not the Unicode `toLowerCase` (export-to-docx.ts:84). HTML parsers report tag names in ASCII, so only non-ASCII custom-element names could differ.
- JsString: strings are sequences of Unicode scalar values, so lone UTF-16 surrogates cannot be represented. `text.length` is still counted in UTF-16 code units (JsString.Utf16Length).
- LineDiff.Normalize: the engine's `toLowerCase` is the abstract `Filters.lower`. LineDiff.NormalizeSingleLine and LineDiff.RenderOneLinePerEntry assume of it only `KeepsLines`, that lower-casing never creates a line feed. The Unicode case tables are not modelled.
- TextTransforms.ConvertCase: upper, lower, snake and kebab use the ASCII case mapping, not the Unicode `toUpperCase`/`toLowerCase`.
- TextTransforms.ConvertCase: the title, sentence, camel and pascal cases (text-utilities.tsx:82-101) are not modelled. They depend on the regex `\w`/`\S` word machinery, which is outside this model.
- `findAndReplace` and `sortLines` (text-utilities.tsx:143-209) are not modelled. They build user-supplied regular expressions and use `localeCompare`/`parseFloat`, which are foreign code.
- CitationList.Generate: the `useAI` path (citation-generator.tsx:202-210) is not modelled. It prompts a remote model, together with `buildSourceInfo` and `getStyleName`.
- CitationList.Generate: `generateId` (citation-generator.tsx:147) draws randomness and is the `id` parameter.
- CitationList.Generate: the form reset and the toasts after generating are UI state and are not modelled.
- CitationFormat.FormatAuthorMla: the two-name form does not round-trip through the author splitter. CitationFormat.FormatAuthorMlaPair states what re-splitting yields instead of an identity.
- The citation convert tab, `handleCopyAllCitations`, `handleDownload` and the reset handlers (citation-generator.tsx:231-284) are not modelled. They are AI calls, clipboard and file I/O, and UI state.
- The diff view's `handleDownloadDiff`, file upload and view mode are not modelled, because they are I/O and presentation. The rendered text they would write is LineDiff.RenderDiff.
- The `stores`, the editor components and the views outside the files named above are not part of this model.
