# ScopeMate core, modelled in Dafny

ScopeMate scans the job postings of a co-op job board. It asks a language model whether each new posting is a developer role and a good fit. It caches the analysis in `data/job_analysis.json`, and for suitable jobs it writes the job description and a generated cover letter as PDFs. For Science Co-op postings it also submits an application package. This project models the logic of that pipeline and proves properties of it:

- **PDF layout** (`saveAsPDF`):
  - the printable-ASCII filter;
  - the split into lines;
  - the greedy word wrapper `wrapLine`;
  - the email/URL scanner;
  - `drawTextWithEmailsAndUrls` with its link annotations;
  - the pagination loop with its footer.

  A page is a log of draw operations (`PdfCanvas.PdfPage`), and a document is its list of pages (`PdfCanvas.PdfDocument`). The methods that draw on them are proved equal to a layout function (`PdfLayout.Render`), and the properties are proved about that function.
- **The analysis cache** (`saveAsJSONFile`): the loop that merges the new entries into the stored object.
- **Posting processing** (`processPostings`, `processSinglePosting`, the names used by `sendScopeApplication`):
  - the job id;
  - the skip rules;
  - the two-job cap;
  - the cover-letter decision;
  - the file names and output paths.
- **Reply post-processing** (`checkJobFitAndRole`, `generateCoverLetter`):
  - fence stripping and trimming;
  - JavaScript truthiness coercion;
  - the error cases.

Files:

- `js_text.dfy`: `Option`/`Result` and the JavaScript string operations used: `trim`, `replace` of a first occurrence, `split(/\s+/)` and `split(/\r?\n/)`.
- `sanitizer.dfy`: the printable-ASCII filter.
- `line_wrap.dfy`: `wrapLine`.
- `link_scanner.dfy`: the email/URL regular expression.
- `pdf_canvas.dfy`: the page and document classes.
- `linked_text.dfy`: `drawTextWithEmailsAndUrls` and `addLinkAnnotation`.
- `pdf_layout.dfy`: `saveAsPDF`.
- `json_cache.dfy`: `saveAsJSONFile`.
- `ai_service.dfy`: JSON values and `AIService`.
- `postings.dfy`: `ProcessPostings`.

External inputs are parameters:

- the font's `widthOfTextAtSize`;
- the page size pdf-lib gives a new page;
- the footer image's size;
- the model's replies;
- `JSON.parse`;
- the cache file as read at start-up.

## Model

| member | source | states |
|---|---|---|
| TextSanitizer.Sanitize | src/utils/Utilities.ts:34 | the result holds only tab, LF, CR and 0x20-0x7E and is no longer than the input |
| TextSanitizer.SanitizeAppend | src/utils/Utilities.ts:34 | sanitizing works character by character: sanitizing a concatenation concatenates the sanitized parts, so kept characters keep their order |
| TextSanitizer.SanitizeKeepsPrintable | src/utils/Utilities.ts:34 | text that is already printable is left unchanged |
| TextSanitizer.SanitizeIdempotent | src/utils/Utilities.ts:34 | sanitizing twice equals sanitizing once |
| JsText.TrimIsSlice | src/browser/ProcessPostings.ts:25 | `trim()` returns a slice of the input that neither starts nor ends with whitespace; everything cut off is whitespace |
| JsText.TrimIdempotent | src/ai/AIService.ts:70 | trimming twice equals trimming once |
| JsText.ReplaceFirstOfPrefix | src/browser/ProcessPostings.ts:25 | `replace(pat, "")` on a string that starts with `pat` removes exactly that prefix |
| JsText.ReplaceFirstAbsent | src/browser/ProcessPostings.ts:25 | `replace` leaves a string without the pattern unchanged |
| JsText.IndexOfFrom | src/browser/ProcessPostings.ts:25 | finds the first occurrence at or after `from`, and `None` exactly when there is none |
| JsText.SplitOnSpaces | src/utils/Utilities.ts:70 | `split(/\s+/)` yields words without whitespace in which only the first and last can be empty, and the first is non-empty when the input does not start with whitespace |
| JsText.SplitOnSpacesOfBlank | src/utils/Utilities.ts:70 | a whitespace-only line splits into `[""]` when empty and `["", ""]` otherwise |
| JsText.SplitOnSpacesOfJoin | src/utils/Utilities.ts:70 | splitting words joined by single spaces gives the words back |
| JsText.SplitLines | src/utils/Utilities.ts:176 | `split(/\r?\n/)` yields at least one line and no line contains a line feed |
| JsText.SplitLinesCount | src/utils/Utilities.ts:176 | there is one more line than there are line feeds |
| JsText.SplitLinesJoin | src/utils/Utilities.ts:176 | without carriage returns, joining the lines with line feeds gives the input back |
| LineWrap.WrapLine | src/utils/Utilities.ts:69-87 | the loop over the words computes `Wrapped`, the greedy packing of the words into sublines |
| LineWrap.WrapKeepsWords | src/utils/Utilities.ts:70-86 | the sublines' words are the split's words, whole and in order; no group is empty; only empty words can be left out, at the end |
| LineWrap.WrapFits | src/utils/Utilities.ts:74-81 | every subline fits `maxLineWidth` or is one single word |
| LineWrap.WrapGreedy | src/utils/Utilities.ts:76-78 | a subline is closed only when gluing the next word onto it would exceed `maxLineWidth` |
| LineWrap.GlueAllIsJoin | src/utils/Utilities.ts:74 | a subline whose first word is non-empty is its words joined with single spaces |
| LineWrap.WrappedEmpty | src/utils/Utilities.ts:83-86 | an empty line wraps to no sublines |
| LineWrap.WrapBlank | src/utils/Utilities.ts:70-86 | a whitespace-only line wraps to no sublines when the empty string fits |
| LineWrap.WrapLeadingSpaceWideWord | src/utils/Utilities.ts:74-78 | a leading space and then an over-wide word give an empty subline followed by the word |
| LineWrap.WrappedStable | src/utils/Utilities.ts:69-87 | when the empty line fits, wrapping the sublines joined by single spaces gives the same sublines again |
| LineWrap.PackText | src/utils/Utilities.ts:73-86 | after each word, the pushed sublines and the current line joined by single spaces are the words read so far joined by single spaces (unless a leading empty word was absorbed), and the current line is empty only when it holds just the empty word read last |
| LineWrap.PackDropLead | src/utils/Utilities.ts:73-86 | an empty first word that the first subline absorbs changes neither the pushed sublines nor the current line |
| LineWrap.PackDropTrail | src/utils/Utilities.ts:73-86 | a final empty word that starts a line of its own is never pushed, so the sublines are those of the words before it |
| LineWrap.PackPrefix | src/utils/Utilities.ts:73-86 | the decisions over the first `n` words do not depend on the words after them |
| LinkScanner.RunEndSpan | src/utils/Utilities.ts:134 | a greedy character-class run is maximal: every character in it has the property and the character after it does not |
| LinkScanner.LastTld | src/utils/Utilities.ts:134 | a top-level domain found by backtracking starts inside the domain, at a dot followed by two letters |
| LinkScanner.LastTldIsLast | src/utils/Utilities.ts:134 | it is the last such dot in the domain, and `None` means the domain holds none |
| LinkScanner.MatchAt | src/utils/Utilities.ts:134 | a match found at position `p` starts at `p` and is non-empty |
| LinkScanner.NextMatch | src/utils/Utilities.ts:138 | `regex.exec` from `lastIndex` reports a non-empty match inside the text, starting at or after `lastIndex`, that is what the expression matches at that position |
| LinkScanner.NextMatchLeftmost | src/utils/Utilities.ts:138 | the reported match is the leftmost one: no position between `lastIndex` and its start starts a match, and when nothing is reported no position from `lastIndex` on does |
| LinkScanner.MatchesOrdered | src/utils/Utilities.ts:138-166 | the matches of the global scan are non-empty, in bounds, in increasing order and do not overlap |
| LinkScanner.MatchesLeftmost | src/utils/Utilities.ts:138-166 | nothing matches before the first match or inside any gap between consecutive matches |
| LinkScanner.EmailCharVisible | src/utils/Utilities.ts:134 | every character of an email match is visible ASCII |
| LinkScanner.UrlCharNotSpace | src/utils/Utilities.ts:134 | no character of a URL match is whitespace |
| LinkScanner.MatchHasNoSpace | src/utils/Utilities.ts:134 | no match contains whitespace |
| LinkScanner.EmailAndUrlNeverShareStart | src/utils/Utilities.ts:134 | the email and URL alternatives never both match at one position, so the alternation order never matters |
| LinkScanner.NextMatchIs | src/utils/Utilities.ts:138 | a match with no match before it is the one `exec` returns |
| PdfCanvas.PdfPage.Draw | src/utils/Utilities.ts:145 | drawing appends exactly one operation to the page and changes nothing else |
| PdfCanvas.PdfDocument.AddPage | src/utils/Utilities.ts:57 | `addPage` appends a fresh empty page to the document |
| LinkedText.AddLinkAnnotation | src/utils/Utilities.ts:102-127 | appends one Link annotation with rectangle `[x, y, x + width, y + height]` and the given URI to the page's annotations |
| LinkedText.DrawLink | src/utils/Utilities.ts:150-162 | a match is drawn as a blue text, a blue underline from `(x, y-2)` to `(x+w, y-2)` and a `mailto:` annotation over `[x, y, x+w, y+fontSize]` |
| LinkedText.DrawUpToMatch | src/utils/Utilities.ts:139-164 | one loop iteration draws the gap (if non-empty) and the match, and returns the cursor after them |
| LinkedText.DrawTextWithEmailsAndUrls | src/utils/Utilities.ts:131-173 | the page gains exactly `RunOps` of the line: each gap and match in scan order, then the remainder |
| LinkedText.DrawnLine | src/utils/Utilities.ts:131-173 | the texts drawn spell the line exactly; empty gaps and an empty remainder are not drawn; each match gets one blue run, underline and annotation; the runs are laid end to end from the start x; and the k-th blue text and the k-th link target are the k-th match and `"mailto:"` + that match |
| LinkedText.RunOpsSpell | src/utils/Utilities.ts:131-173 | the texts drawn for a subline, in drawing order, spell the subline exactly: nothing is lost, doubled or reordered |
| LinkedText.RunOpsOnBaseline | src/utils/Utilities.ts:145-171 | all texts of a subline are on its baseline and none of its operations is an image |
| LinkedText.PlainLine | src/utils/Utilities.ts:169-172 | a subline without matches is one black text, or nothing when it is empty |
| PdfLayout.RenderFramed | src/utils/Utilities.ts:177-205 | the document has at least one page; every page ends with exactly one footer and holds no other image; every text lies at the top of its page or at least one line height above the footer zone |
| PdfLayout.RenderSpellsSublines | src/utils/Utilities.ts:176-196 | the texts of all pages, in order, spell the sublines of the sanitized content's lines |
| PdfLayout.RenderPageCount | src/utils/Utilities.ts:182-189 | the document has at least one page, and at most one more page than there are sublines |
| PdfLayout.NeedsNewPageAt | src/utils/Utilities.ts:182-189 | the page-break test fails for the first `LinesPerPage` baselines `top - k * lineHeight` of a page and holds for every lower one, so a page holds `LinesPerPage` sublines |
| PdfLayout.PositionAfterCount | src/utils/Utilities.ts:180-195 | after `n >= 1` sublines from the top, `(n - 1) / LinesPerPage` pages are finished and the next baseline is `(n - 1) % LinesPerPage + 1` rows below the top; when not even one subline fits, every subline opens its own page |
| PdfLayout.PlaceSublinesAtRow | src/utils/Utilities.ts:180-195 | placing sublines advances the layout exactly as the page capacity predicts, one row per subline |
| PdfLayout.PlaceLinesFlat | src/utils/Utilities.ts:177-202 | with no line that wraps to nothing, placing the content lines places their sublines one after the other |
| PdfLayout.PlaceSublinesPageCount | src/utils/Utilities.ts:180-205 | `n >= 1` sublines from the top fill exactly `PageCount` pages: `1 + (n - 1) / LinesPerPage`, or `1 + n` when not even one fits |
| PdfLayout.RenderPageCountExact | src/utils/Utilities.ts:176-205 | content whose lines all wrap to at least one subline has at least one subline and renders to exactly `PageCount` pages for them |
| PdfLayout.BlankLinesOnlyMoveDown | src/utils/Utilities.ts:199-201 | lines that wrap to no sublines draw nothing, never break the page, and move `y` down one line height each |
| PdfLayout.RenderNoSublines | src/utils/Utilities.ts:199-205 | content without sublines gives a single page holding only the footer |
| PdfLayout.RenderEmpty | src/utils/Utilities.ts:176-205 | empty content gives one page with no text and one footer |
| PdfLayout.DrawFooterImage | src/utils/Utilities.ts:90-99 | the footer image is appended at `(margin, margin)` at 25% of its size |
| PdfLayout.PlaceSublineOn | src/utils/Utilities.ts:182-195 | one subline step of the loop (page break if `y - lineHeight < margin + footerHeight`, draw, move down) keeps the document in step with `PlaceSubline` |
| PdfLayout.PlaceSublinesOn | src/utils/Utilities.ts:180-196 | the loop over the sublines of one content line keeps the document in step with `PlaceSublines`: the finished pages and the current page hold exactly what it lays out, every subline drawn in order with the page breaks it calls for |
| PdfLayout.PlaceLineOn | src/utils/Utilities.ts:177-202 | one content line (its sublines, or a blank step) keeps the document in step with `PlaceLine` |
| PdfLayout.FinishDocument | src/utils/Utilities.ts:204-205 | after the last footer the document's pages are exactly `Pages` of the layout |
| PdfLayout.SaveAsPdf | src/utils/Utilities.ts:33-210 | the document built has exactly the pages of `Render`, page by page |
| JsonCache.Merge | src/utils/Utilities.ts:26-28 | the merged keys are the union; new entries win; other existing keys keep their entries |
| JsonCache.SaveAsJsonFile | src/utils/Utilities.ts:10-31 | the key-by-key loop writes `SaveResult`: the merge into the stored object, or into `{}` when the file is missing or unparsable |
| JsonCache.SaveWithoutCache | src/utils/Utilities.ts:16-24 | with no readable cache file, exactly the new data is written |
| JsonCache.SaveTwice | src/utils/Utilities.ts:14-30 | saving the same data again leaves the file as the first save wrote it |
| JsonValue.Get | src/ai/AIService.ts:75-77 | a property read on a non-null value is defined exactly for an object's own members |
| AiService.WordRunEnd | src/ai/AIService.ts:68 | the end of the `[\w]*` run after a fence |
| AiService.StripFences | src/ai/AIService.ts:68 | removing fences never lengthens the content |
| AiService.RemoveTicks | src/ai/AIService.ts:69 | removing triple backticks never lengthens the content |
| AiService.RemoveTicksLeading | src/ai/AIService.ts:69 | after the second `replace`, the number of leading backticks is the old number modulo 3 |
| AiService.RemoveTicksNoFence | src/ai/AIService.ts:69 | after the second `replace` no triple backtick is left |
| AiService.NoFenceUnchanged | src/ai/AIService.ts:68-69 | content without a triple backtick passes both `replace` calls unchanged |
| AiService.CleanHasNoFence | src/ai/AIService.ts:65-70 | the cleaned content contains no triple backtick |
| AiService.CleanWithoutFence | src/ai/AIService.ts:67-70 | content without a triple backtick is only trimmed |
| AiService.CleanIdempotent | src/ai/AIService.ts:67-70 | cleaning cleaned content changes nothing |
| AiService.StripFencesAppend | src/ai/AIService.ts:68 | a fence-free prefix not ending in a backtick passes through the first `replace` unchanged |
| AiService.FencedReplyIsUnwrapped | src/ai/AIService.ts:67-70 | a body fenced by a tagged opening fence and a closing fence cleans to the trimmed body |
| AiService.ReasonOf | src/ai/AIService.ts:77 | `parsed.reason \|\| ""` is the parsed reason when that is truthy, and otherwise `""` |
| AiService.CheckJobFitAndRole | src/ai/AIService.ts:59-82 | request failure and a missing or blank reply are errors, each exactly in its case; a successful result's reason is truthy or `""` |
| AiService.CheckJobFitAndRoleParsed | src/ai/AIService.ts:72-82 | for a non-blank reply, `ParseFailed` exactly when the cleaned content does not parse or parses to `null`; otherwise `isDev` and `isFit` are the truthiness of the parsed fields and `reason` is `parsed.reason \|\| ""` |
| AiService.GenerateCoverLetter | src/ai/AIService.ts:85-131 | an empty description fails before any request; a request that throws fails; a reply with content gives that content trimmed, and one without content gives `""` |
| Postings.JobIdIsTrimmed | src/browser/ProcessPostings.ts:25 | a job id is trimmed |
| Postings.JobIdOfPostingRow | src/browser/ProcessPostings.ts:25 | the id of row `"posting" + n` is `n` trimmed |
| Postings.JobIdRemovesFirstOnly | src/browser/ProcessPostings.ts:25 | only the first `"posting"` is removed |
| Postings.LoadAnalysisMap | src/browser/ProcessPostings.ts:8-14 | the start-up map is `{}` without a file and fails to load exactly when the file cannot be parsed |
| Postings.Candidates | src/browser/ProcessPostings.ts:24-42 | the rows that get past both skip rules are never skipped and are no more than the rows |
| Postings.FirstTwo | src/browser/ProcessPostings.ts:63-70 | the cap keeps the first two candidates, or all of them when there are fewer |
| Postings.Run | src/browser/ProcessPostings.ts:24-71 | a run processes exactly the first two candidates in page order, or all of them when there are fewer than two |
| Postings.ProcessPostings | src/browser/ProcessPostings.ts:16-72 | the loop with its counter, `continue` and `break` processes exactly `Run` of the scanned rows |
| Postings.ExamineRow | src/browser/ProcessPostings.ts:25-42 | the loop body derives the job id and skips exactly the cached or already-applied rows |
| Postings.CandidatesAppend | src/browser/ProcessPostings.ts:24-42 | the skip rules look at each row alone |
| Postings.CandidatesAreUnskipped | src/browser/ProcessPostings.ts:27-42 | a row is a candidate if and only if it is listed and neither cached nor applied |
| Postings.SkippedRowsDoNotCount | src/browser/ProcessPostings.ts:27-63 | skipped rows do not move the counter: a run after them is as if they were absent |
| Postings.RepeatedRowProcessedTwice | src/browser/ProcessPostings.ts:9-27 | the start-up map is not updated during a run, so a row listed twice is processed twice |
| Postings.RowsAfterSecondJobIgnored | src/browser/ProcessPostings.ts:68-70 | rows after the second processed job are never looked at |
| Postings.ReplaceNonAlnum | src/browser/ProcessPostings.ts:99 | `replace(/[^a-z0-9]/gi, "_")` keeps ASCII letters and digits and turns every other character into `_` |
| Postings.LowerAscii | src/browser/ProcessPostings.ts:99 | `toLowerCase()` lowers ASCII `A`-`Z` and keeps every other character; this is the whole of `toLowerCase()` only on `[A-Za-z0-9_]`, which is all the replace before it leaves |
| Postings.SafeFilename | src/browser/ProcessPostings.ts:99 | the file name has the title's length and only `[a-z0-9_]`, with `_` exactly where the title has `_` or a character other than an ASCII letter or digit |
| Postings.SafeFilenameOfSafe | src/browser/ProcessPostings.ts:99 | a name made of `[a-z0-9_]` is its own file name |
| Postings.SafeFilenameIdempotent | src/browser/ProcessPostings.ts:99 | deriving the file name twice equals deriving it once |
| Postings.ProcessSinglePosting | src/browser/ProcessPostings.ts:74-133 | covers the steps of one posting. A failed fit check leaves nothing. Otherwise the analysis entry is saved. The description PDF is written exactly when the procedure's rule wants a cover letter. The letter PDF is written exactly when the description was written and a letter was generated. An application is submitted exactly for Science Co-op postings with a letter, using the letter's path |
| Postings.CoverLetterRule | src/browser/ProcessPostings.ts:96-132 | Science Co-op postings get a letter iff dev or fit; any other procedure iff dev and fit, and never an application |
| Postings.SubmittedPackageNames | src/browser/ProcessPostings.ts:160-187 | the uploaded document is `jobId_CoverLetter`, the package is `jobId_Package`, and the package selects that document |
| Postings.AnalysedJobSkippedNextRun | src/browser/ProcessPostings.ts:88-91 | once saved, a job's analysis is in the file as an object, which the next run loads (lines 12-14) and skips (line 27) |
| Postings.CoverLetterPdfHoldsReply | src/browser/ProcessPostings.ts:101-127 | the cover-letter PDF holds the model's reply trimmed (or `""` for a reply without content), and no letter is written when the request threw |
| Postings.FailedFitCheckLeavesNothing | src/browser/ProcessPostings.ts:77-94 | when the fit check throws, no entry is saved, no PDF is written and nothing is submitted |

## Left out

- Browser automation is not part of this model. This covers puppeteer, DOM selectors, page and tab handling, the `targetcreated` pairing, waits, uploads and `selectDropdownOption`. The row texts that the page callbacks read and trim become fields of `Postings.Row`. A missing apply button, which throws, is not modelled.
- The requests to the language model and their prompts are not modelled: each reply is a parameter (`AiService.Reply`).
- `JSON.parse` is a parameter. `JSON.stringify` and the key order it writes are not modelled.
- File-system reads and writes are not modelled. The cache file is a value (`JsonCache.Stored`, `Postings.StartupFile`). A PDF written by a posting is its path plus the text it renders (`Postings.PdfFile`); `PdfLayout.Render` gives its pages. A `saveAsPDF` that throws is not modelled.
- A start-up cache file holding valid JSON that is not an object is not modelled: the model starts from an empty map or from an object.
- JsonCache.SaveAsJsonFile: a cache file holding a JSON array is not modelled. `JSON.parse` then yields an array, `existingData[jobId] = entry` sets an array index when the id is numeric, and `JSON.stringify` writes the array padded with nulls and drops every non-index key. `JsonCache.Stored` has no array case, because the start-up load and every write of the core produce objects.
- pdf-lib internals are not modelled (font and JPEG embedding, dictionary objects, serialisation): each drawing call is one entry of a draw-operation log.
- The font's widths, the page size and the footer image's size are parameters. Arithmetic is on exact reals, not on IEEE doubles.
- Characters outside the Basic Multilingual Plane are not modelled: JavaScript counts them as two code units, and the model as one character.
- PdfLayout.RenderPageCountExact: the exact page count is proved only for content in which every line wraps to at least one subline. A line that wraps to nothing moves `y` down with no page-break test, so with blank lines the model states only the bounds of `PdfLayout.RenderPageCount`.
- Postings.ProcessSinglePosting: the cover letter's path is kept relative (`data/cover_letters/<name>.pdf`), without the working-directory prefix that `path.resolve` adds.
- The configuration module and the type declarations are not part of this model. The record shapes come from their uses.
