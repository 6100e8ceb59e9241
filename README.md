# pdf-smart-search, verified model of the page-text pipeline, search, export plan, highlighting and viewer

pdf-smart-search is a browser application. It turns the pages of an uploaded PDF into lines of text, using OCR for a page whose text layer is nearly empty. It searches those lines case-insensitively and highlights the matches. It exports the pages of the selected search results as one merged PDF, and it pages and zooms through the document in a viewer. This project models that logic in Dafny and proves what the code promises about it. The modules are:

- `JsText` (`js_text.dfy`): the JavaScript built-ins the code relies on. These are the `\s` class and `trim`, `toLowerCase`, `includes`/`indexOf`, `join`, `String(n)` and `Math.round` of a ratio.
- `JsSplit` (`js_split.dfy`): `String.prototype.split` with a regular expression, following the ECMAScript algorithm. A pattern is given by its sticky matcher. With one capturing group, the result alternates pieces and matches; without one, only the pieces are returned.
- `PdfTypes` (`pdf_types.dfy`): the records of `src/types/pdf.ts` as the hook builds them. It also describes the outside world as values: the text layer of each page, what OCR would answer, and whether the file loads.
- `PageText` (`page_text.dfy`): the text of one page and the OCR decision (`extractTextFromPage`). It also holds the line split `text.split(/\n|(?<=\.)\s+|(?<=\?)\s+|(?<=!)\s+/).filter(line => line.trim())`.
- `PdfProcessor` (`pdf_processor.dfy`): the `usePDFProcessor` hook as a class `Processor`. Its fields are `isProcessing`, `progress` and the stored `document`. Its methods are `processFile` (with its page loop), `searchDocument` (with its two nested loops) and `clearDocument`. Each loop is proved against a specification function, and the search is proved sound, complete and ordered.
- `SearchResultsView` (`search_results.dfy`): `highlightText` covers escaping the term, splitting the line on the case-insensitive regex, and the `g`-flag `regex.test` that marks the parts. It also models the choice between the result list and "No results found", and the click on a result.
- `Export` (`export_button.dfy`): `ExportButton.handleExport`. It covers:
  - matching the selected keys back to results;
  - the per-document `Map` of page `Set`s, in insertion order;
  - sorting each group;
  - the `copyPages` plan, with `isExporting` as a class field.

  pdf-lib is reduced to two answers: the page count of a loaded document, and whether saving succeeds.
- `PdfViewer` (`pdf_viewer.dfy`): the viewer toolbar as a class `Viewer`. It covers previous and next page, zoom in and out, the disabled conditions and the percentage label. The scale is held as a whole number of quarters.

Some facts about the code shape the model:
- Page text is the text-layer items joined by one space. Fragments are not grouped by position, and lines are not joined by newlines.
- OCR text goes through the same split regex as the text layer. Lines are not trimmed; only whitespace-only lines are dropped.
- `processFile` takes one file and replaces the stored document. Progress after page i is `Math.round((i / totalPages) * 100)`, computed over the pages of that one file (see "## Left out" on how the model rounds it).
- Search results carry no `documentId` or `documentName`, and the stored document carries no `id`. The export component uses the declared `SearchResult` and `PDFDocument` shapes, which do carry them, so `Export` has its own records with those fields.

## Model

| member | source | states |
|---|---|---|
| JsText.Trim | src/hooks/usePDFProcessor.ts:26 | trimming removes whitespace only at the two ends: the result is a slice of the text whose cut-off start and end are whitespace-only, never longer than the text, and it keeps every non-whitespace character, in order |
| JsText.TrimFacts | src/hooks/usePDFProcessor.ts:26 | the trimmed text is empty exactly when the text is whitespace-only; otherwise it starts and ends with a non-whitespace character |
| JsText.TrimKeepsVisibleLength | src/hooks/usePDFProcessor.ts:26 | the trimmed length is at least the number of non-whitespace characters |
| JsText.LowerCharChanges | src/hooks/usePDFProcessor.ts:104 | lowering a character changes it exactly when it is an upper-case ASCII letter, and then gives a lower-case one |
| JsText.LowerFacts | src/hooks/usePDFProcessor.ts:104 | a lowered string has no upper-case ASCII letter left, keeps every other character in place, and lowering it again changes nothing |
| JsText.LowerSlice | src/hooks/usePDFProcessor.ts:108-109 | lowering a slice of a line gives the same slice of the lowered line |
| JsText.IndexOf | src/hooks/usePDFProcessor.ts:108-109 | `indexOf` is -1 exactly when `includes` is false; otherwise it is an occurrence with no occurrence before it |
| JsText.SplitOnJoin | src/hooks/usePDFProcessor.ts:21-23 | joining items with one space loses nothing: splitting on the space gives the items back when none contains a space |
| JsText.RoundRatio | src/hooks/usePDFProcessor.ts:78 | `Math.round(num / den)` is the nearest integer, halves rounded up |
| JsText.NatToStringInjective | src/components/ExportButton.tsx:30 | different indices are printed as different digit strings |
| JsSplit.ScanShape | src/hooks/usePDFProcessor.ts:70 | `split` cuts exactly where the pattern first matches after each cut: pieces and matches alternate, tile the string, and no piece contains a match start |
| JsSplit.SplitCapturing | src/components/SearchResults.tsx:14 | a split with a capturing group has an odd number of parts, and they concatenate back to the string |
| JsSplit.Evens | src/hooks/usePDFProcessor.ts:70 | a split without a capturing group returns the pieces, at the even positions of the capturing split |
| JsSplit.EvensKeepVisible | src/hooks/usePDFProcessor.ts:70 | when every match is whitespace, dropping the matches loses no visible character |
| PageText.ExtractTextFails | src/hooks/usePDFProcessor.ts:15-31 | a page fails exactly when its text layer rejects, or when it needs OCR and recognition rejects; otherwise it yields the joined text layer or the OCR text |
| PageText.OcrUsedIffShort | src/hooks/usePDFProcessor.ts:26-28 | the OCR text, returned verbatim even when short or empty, replaces the text layer exactly when the joined layer trims to fewer than 50 characters |
| PageText.VisibleTextLayerIsKept | src/hooks/usePDFProcessor.ts:26-30 | a text layer with at least 50 non-whitespace characters is kept as is |
| PageText.BlankTextLayerGoesToOcr | src/hooks/usePDFProcessor.ts:25-27 | an empty or whitespace-only text layer always goes to OCR |
| PageText.SpaceRun | src/hooks/usePDFProcessor.ts:70 | greedy `\s+` takes the maximal whitespace run |
| PageText.BreakIsBlank | src/hooks/usePDFProcessor.ts:70 | the line-break pattern only ever matches whitespace |
| PageText.KeepNonBlankMembers | src/hooks/usePDFProcessor.ts:70 | the filter keeps exactly the lines that are not whitespace-only |
| PageText.PiecesHaveNoBreak | src/hooks/usePDFProcessor.ts:70 | no piece has a newline, or a `.`, `?` or `!` directly followed by whitespace |
| PageText.CutsAreBreaks | src/hooks/usePDFProcessor.ts:70 | every cut is one newline, or a maximal whitespace run that starts with a non-newline character and follows a piece ending in `.`, `?` or `!` |
| PageText.LinesKeepVisibleText | src/hooks/usePDFProcessor.ts:70 | the lines together keep every non-whitespace character of the page text, in order |
| PageText.LinesAreClean | src/hooks/usePDFProcessor.ts:70 | every line has a non-whitespace character, no newline, and no `.`, `?` or `!` directly followed by whitespace |
| PdfProcessor.ProgressInRange | src/hooks/usePDFProcessor.ts:78 | the progress after page i of N is between 0 and 100 |
| PdfProcessor.ProgressMonotone | src/hooks/usePDFProcessor.ts:68-79 | progress never decreases from page to page |
| PdfProcessor.ProgressCompletes | src/hooks/usePDFProcessor.ts:78 | the progress after the last page is exactly 100 |
| PdfProcessor.ReadablePrefixReads | src/hooks/usePDFProcessor.ts:68-69 | every page before the stopping point yields text |
| PdfProcessor.ReadablePrefixFails | src/hooks/usePDFProcessor.ts:68-69 | the page at the stopping point, if any, rejects |
| PdfProcessor.ReadablePrefixStops | src/hooks/usePDFProcessor.ts:68-69 | the loop stops at the latest at the first rejecting page |
| PdfProcessor.ReadTextsSucceeds | src/hooks/usePDFProcessor.ts:68-79 | the first n pages can be read exactly when none of them rejects |
| PdfProcessor.ReadTextsInOrder | src/hooks/usePDFProcessor.ts:68-69 | text k read is the text extracted from page k |
| PdfProcessor.RecordsAppend | src/hooks/usePDFProcessor.ts:72-76 | pushing one page adds the record numbered after the previous ones, holding its text and its lines |
| PdfProcessor.WellFormedIsNumbered | src/hooks/usePDFProcessor.ts:68-86 | a stored document has totalPages pages numbered 1, 2, 3, ...; page k holds the text of page k and the lines cut from it |
| PdfProcessor.LineHitsSound | src/hooks/usePDFProcessor.ts:107-116 | each result of a page reports one of its lines whose lower-case form contains the term, with the original text, its 1-based number and the first match offset |
| PdfProcessor.LineHitsOnPage | src/hooks/usePDFProcessor.ts:111-112 | each result of a page carries that page's number and a line number of the page |
| PdfProcessor.LineHitsOrdered | src/hooks/usePDFProcessor.ts:107-117 | the results of a page come in strictly increasing line order |
| PdfProcessor.LineHitsComplete | src/hooks/usePDFProcessor.ts:107-117 | every line of a page that contains the term is reported |
| PdfProcessor.PageHitsSound | src/hooks/usePDFProcessor.ts:106-118 | each result names an existing page and reports a line of that page that contains the term |
| PdfProcessor.PageHitsOnPages | src/hooks/usePDFProcessor.ts:106-111 | each result carries the number of one of the pages |
| PdfProcessor.PageHitsOrdered | src/hooks/usePDFProcessor.ts:106-118 | the results come in page order, then line order |
| PdfProcessor.PageHitsComplete | src/hooks/usePDFProcessor.ts:106-118 | every line of every page that contains the term is reported |
| PdfProcessor.SearchSound | src/hooks/usePDFProcessor.ts:99-123 | every result implies a document and a term that is not whitespace-only, and reports a line containing the lowered, untrimmed term |
| PdfProcessor.SearchComplete | src/hooks/usePDFProcessor.ts:103-120 | every line of the document that contains the term, ignoring case, is reported |
| PdfProcessor.SearchOrdered | src/hooks/usePDFProcessor.ts:103-120 | results come in page order, then line order, so no line is reported twice |
| PdfProcessor.SearchResultsSound | src/hooks/usePDFProcessor.ts:99-123 | every result at once names a page of the document and reports one of its lines that contains the lowered term |
| PdfProcessor.ResultPageExists | src/hooks/usePDFProcessor.ts:106-111 | a result of a stored document names a page from 1 to `totalPages` |
| PdfProcessor.Processor.constructor | src/hooks/usePDFProcessor.ts:11-13 | the hook starts not processing, at progress 0, with no document |
| PdfProcessor.Processor.ReadPages | src/hooks/usePDFProcessor.ts:64-79 | the page loop reads pages in order until one rejects; it fails exactly when some page rejects, otherwise builds the records of all pages, and logs the rounded progress after each page read |
| PdfProcessor.Processor.ProcessFile | src/hooks/usePDFProcessor.ts:56-97 | progress goes 0, then the value after each page, then 0; the document is replaced by the file's records exactly when every page yields text, and is unchanged otherwise; processing ends false either way |
| PdfProcessor.Processor.SearchDocument | src/hooks/usePDFProcessor.ts:99-123 | on the hook's state, the search returns the search specification; every result reports a line of the stored document that contains the lowered term, and results come in page order, then line order |
| PdfProcessor.Processor.SearchPages | src/hooks/usePDFProcessor.ts:106-118 | the outer loop returns the results of all pages, page after page |
| PdfProcessor.Processor.SearchLines | src/hooks/usePDFProcessor.ts:107-117 | the inner loop returns the results of one page |
| PdfProcessor.Processor.ClearDocument | src/hooks/usePDFProcessor.ts:125-127 | the document becomes none and nothing else changes |
| SearchResultsView.Escape | src/components/SearchResults.tsx:13 | the escaped term is a pattern with no operator, at least as long as the term |
| SearchResultsView.UnescapeEscape | src/components/SearchResults.tsx:13 | removing the escaping backslashes gives back the term; the case-insensitive regex over the escaped term is taken to match what this unescaped form spells |
| SearchResultsView.EscapePlain | src/components/SearchResults.tsx:13 | a term without metacharacters is left as it is |
| SearchResultsView.EscapeChar | src/components/SearchResults.tsx:13 | a metacharacter gets one backslash in front of it, and any other character is kept as it is |
| SearchResultsView.EscapeAppend | src/components/SearchResults.tsx:13 | escaping a concatenation escapes each part on its own, so a mixed term is escaped character by character, in order |
| SearchResultsView.HighlightText | src/components/SearchResults.tsx:10-11 | the text stays unsegmented exactly when the term is whitespace-only |
| SearchResultsView.HighlightSegments | src/components/SearchResults.tsx:13-24 | the parts concatenate to the line and alternate unmarked and marked, starting and ending unmarked; marked parts equal the term up to case, and unmarked parts never contain it |
| SearchResultsView.TestEachMarksMatches | src/components/SearchResults.tsx:16-24 | although the `g` flag carries `lastIndex` from one part to the next, `regex.test` answers true on exactly the odd parts |
| SearchResultsView.RegexTestMarksOddParts | src/components/SearchResults.tsx:13-24 | for the parts of a real split, `regex.test` marks exactly the matched parts |
| SearchResultsView.OccurrenceIsHighlighted | src/components/SearchResults.tsx:13-24 | a line containing the term, ignoring case, shows at least one marked part |
| SearchResultsView.ChooseView | src/components/SearchResults.tsx:28-64 | "No results found" is shown exactly when there are no results and the term string is non-empty; otherwise there is one entry per result |
| SearchResultsView.ClickedPageExists | src/components/SearchResults.tsx:47 | clicking a result of the stored document asks the viewer for one of its pages, from 1 to `totalPages` |
| SearchResultsView.BlankTermShowsNoResults | src/components/SearchResults.tsx:28 | a term of whitespace only finds nothing, and so shows "No results found" |
| SearchResultsView.SearchHitIsHighlighted | src/components/SearchResults.tsx:61 | every search result is entry j of the rendered list, with its page and line badges, and that entry's line has at least one marked part (under the single ASCII case folding, see "## Left out") |
| PdfViewer.PrevPage | src/components/PDFViewer.tsx:64-68 | previous page goes to p - 1 exactly when p > 1, otherwise stays; it never goes below 1 |
| PdfViewer.NextPage | src/components/PDFViewer.tsx:70-74 | next page goes to p + 1 exactly when p < totalPages, otherwise stays; it never passes totalPages |
| PdfViewer.ZoomInStep | src/components/PDFViewer.tsx:76 | zooming in adds a quarter, capped at 3 |
| PdfViewer.ZoomOutStep | src/components/PDFViewer.tsx:77 | zooming out removes a quarter, floored at 0.5 |
| PdfViewer.PrevThenNext | src/components/PDFViewer.tsx:64-74 | for 1 < p <= totalPages, previous then next returns to p |
| PdfViewer.NextThenPrev | src/components/PDFViewer.tsx:64-74 | for 1 <= p < totalPages, next then previous returns to p |
| PdfViewer.ZoomInThenOut | src/components/PDFViewer.tsx:76-77 | zooming in then out restores the scale below the cap |
| PdfViewer.ZoomOutThenIn | src/components/PDFViewer.tsx:76-77 | zooming out then in restores the scale above the floor |
| PdfViewer.ScaleLabel | src/components/PDFViewer.tsx:120 | the label `Math.round(scale * 100)` is 25 per quarter |
| PdfViewer.Viewer.constructor | src/components/PDFViewer.tsx:19-20 | the scale starts at 1.0 |
| PdfViewer.Viewer.GoToPreviousPage | src/components/PDFViewer.tsx:64-68 | the page becomes the previous one when there is one; nothing else changes |
| PdfViewer.Viewer.GoToNextPage | src/components/PDFViewer.tsx:70-74 | the page becomes the next one when there is one; nothing else changes |
| PdfViewer.Viewer.ZoomIn | src/components/PDFViewer.tsx:76 | the scale takes one zoom-in step and stays within 0.5 to 3 |
| PdfViewer.Viewer.ZoomOut | src/components/PDFViewer.tsx:77 | the scale takes one zoom-out step and stays within 0.5 to 3 |
| PdfViewer.DisabledIffNoEffect | src/components/PDFViewer.tsx:86-130 | each toolbar button is disabled exactly when pressing it would change nothing |
| Export.KeyDeterminesIndex | src/components/ExportButton.tsx:29-31 | a result key names one position in the list, even when ids contain `-` or numbers are negative |
| Export.GroupIndex | src/components/ExportButton.tsx:32-35 | `Map.get` finds the entry of the id, or reports that there is none |
| Export.FirstSelectedIsFirst | src/components/ExportButton.tsx:29-37 | the first selected result of a document is found |
| Export.GroupedDocuments | src/components/ExportButton.tsx:29-37 | the map has one entry per document that has a selected result, and no other |
| Export.GroupedOrder | src/components/ExportButton.tsx:32-34 | entries come in the order of each document's first selected result |
| Export.GroupedPages | src/components/ExportButton.tsx:35 | an entry's pages have no duplicate and are exactly the pages of that document's selected results |
| Export.SelectedPageIsGrouped | src/components/ExportButton.tsx:29-37 | a selected result's page is in its document's entry |
| Export.GroupSelected | src/components/ExportButton.tsx:27-37 | the `forEach` builds the grouping of the selected results |
| Export.SortedPages | src/components/ExportButton.tsx:49 | sorting a page set keeps its pages and makes them strictly ascending |
| Export.GroupPagesSorted | src/components/ExportButton.tsx:49 | each entry, sorted, is strictly ascending and holds exactly its selected pages |
| Export.FindDocument | src/components/ExportButton.tsx:43 | `find` returns the first document with the id, or none |
| Export.ExportOutcome | src/components/ExportButton.tsx:17-74 | the handler refuses exactly an empty selection |
| Export.CopyPlanPrefixFails | src/components/ExportButton.tsx:42-55 | once one group rejects, the whole export fails |
| Export.GroupCopiesFacts | src/components/ExportButton.tsx:42-55 | a group copies all its pages when its document is known, none when not, and only existing pages of a loaded document |
| Export.CopyPlanCount | src/components/ExportButton.tsx:51-54 | a merge has as many pages as the groups of known documents together |
| Export.CopyPlanSound | src/components/ExportButton.tsx:51-54 | every copied page is an existing page of a loaded document, from some group |
| Export.CopyPlanComplete | src/components/ExportButton.tsx:42-55 | every page of every group whose document is known is copied |
| Export.ExportedPlan | src/components/ExportButton.tsx:39-57 | a saved export holds the merge of the grouped selection |
| Export.ExportedPageCount | src/components/ExportButton.tsx:67 | the exported page count is the number of distinct selected pages of known documents |
| Export.ExportCopiesEverySelectedPage | src/components/ExportButton.tsx:29-54 | page n of every selected result of a known document is copied from index n - 1 |
| Export.ExportCopiesOnlySelectedPages | src/components/ExportButton.tsx:29-54 | every copied page is the page of a selected result, taken from index page - 1 of an existing page |
| Export.ExportButton.constructor | src/components/ExportButton.tsx:15 | the button starts not exporting |
| Export.ExportButton.CopyPages | src/components/ExportButton.tsx:51-54 | the inner loop copies page n from index n - 1, or rejects on a page the document does not have |
| Export.ExportButton.MergeGroups | src/components/ExportButton.tsx:42-55 | the outer loop merges the groups in order, skips unknown documents and stops at the first rejection |
| Export.ExportButton.HandleExport | src/components/ExportButton.tsx:17-74 | an empty selection is refused with nothing changed; otherwise the merge is built, and `isExporting` is false at the end whether it succeeded or failed |
| Export.EnabledButtonExports | src/components/ExportButton.tsx:79 | an enabled button never hits the empty-selection error, and it is enabled whenever something is selected and no export is running |

## Left out

- PDF parsing (`getDocument`, `getPage`, `getTextContent`), rendering to a canvas, and Tesseract recognition are library calls. Each page is given as a value `PageSource`: its text-layer items or a rejection, and the OCR text or a rejection. A file is its page list or a load failure.
- pdf-lib (`create`, `load`, `copyPages`, `addPage`, `save`, `getPageCount`) is reduced to the page count of each loaded document and whether saving succeeds. The merged document is the list of pages copied into it.
- Reading the file, Blob and object URLs, the download link, toasts, console logging and the pdf.js worker URL are browser I/O or notification. None of them changes what is computed.
- The viewer's DOM highlighting (`querySelectorAll`, `innerHTML`, `setTimeout`) and its object-URL effect are DOM and timer side effects. Only their term escape is modelled, which is the same `Escape` as in the result list.
- `async`/`await` and React rendering: `processFile` and `handleExport` are modelled as sequential runs. An overlapping second call is not modelled.
- PdfProcessor.ProgressAfter: the model rounds the exact ratio 100·i/N. The code rounds the floating-point product `(i / totalPages) * 100`, which can fall just below a half. For page 23 of 40 the product is 57.49999999999999, so the code shows 57 where the model has 58. The same happens for 46 of 80, 69 of 120, 92 of 160, and 29, 57, 113 and 115 of 200. The proved range (0 to 100), monotonicity and the final 100 also hold for the floating-point computation.
- PdfProcessor.Processor.ReadPages: its progress log inherits the rounding difference of `PdfProcessor.ProgressAfter`.
- PdfProcessor.Processor.ProcessFile: its progress log inherits the rounding difference of `PdfProcessor.ProgressAfter`.
- JsText.Lower: `toLowerCase` is modelled on ASCII letters only, as a length-preserving map. Full Unicode lowering, which can change the length, is not modelled.
- SearchResultsView.SearchHitIsHighlighted: holds because the model folds case once, with the ASCII `Lower`, for both the search and the highlight. The code folds case twice, in different ways: the search uses `toLowerCase` (src/hooks/usePDFProcessor.ts:104,108), while the `i` flag of `new RegExp(..., 'gi')` without `u` (src/components/SearchResults.tsx:13,17) compares upper-cased characters. A line holding U+212A KELVIN SIGN is found by the term "k", because `"\u212A".toLowerCase()` is "k", but `/(k)/gi` does not match it, so the result is listed with no `<mark>`. U+0130 with the term "i" behaves the same way. The model does not show such unhighlighted hits.
- Strings are sequences of Unicode scalar values (Dafny's `char`), while JavaScript measures and indexes strings in UTF-16 code units. For text with characters outside the Basic Multilingual Plane, such as emoji, two counts differ from the code's. The OCR threshold counts the trimmed length in code units (`PageText.OcrUsedIffShort`, `PageText.NeedsOcr`). `matchIndex` is a code-unit offset (`JsText.IndexOf`, `PdfProcessor.LineHitsSound`). On text made only of Basic Multilingual Plane characters the two agree.
- PdfViewer.Viewer: the scale is a whole number of quarters rather than a floating-point number. Every scale the toolbar reaches is a multiple of 0.25 and exact in floating point, so nothing is lost.
- PdfViewer.Viewer.GoToPreviousPage: `onPageChange` is modelled as the page taking the requested value at once. The parent's own handling of the request is not modelled.
- Export.StoredDocument: a stored document is its id, its name and the page count pdf-lib loads from its file. The file bytes are not modelled.
- `src/pages/Index.tsx`, the upload, document-list, search-bar, header and progress components are layout and wiring. They are not part of this model.
