/**
 * The state of `usePDFProcessor`: whether a file is being processed, the
 * progress percentage and the one stored document, with `processFile`,
 * `searchDocument` and `clearDocument`.
 */
module PdfProcessor {
  import opened JsText
  import opened PdfTypes
  import opened PageText

  /** `Math.round((i / totalPages) * 100)`, the progress after page `i`. */
  function ProgressAfter(i: nat, totalPages: nat): int
    requires 0 < totalPages
  {
    RoundRatio(100 * i, totalPages)
  }

  lemma CancelPositiveFactor(a: int, b: int, n: int)
    requires 0 < n && n * a < n * b
    ensures a < b
  {
    assert n * a - n * b == n * (a - b);
  }

  /** The progress after page `i` of `n` is a percentage. */
  lemma ProgressInRange(i: nat, n: nat)
    requires 0 < n && i <= n
    ensures 0 <= ProgressAfter(i, n) <= 100
  {
    var r := ProgressAfter(i, n);
    assert 2 * n * r <= 200 * i + n <= 2 * n * 100 + n < 2 * n * 101;
    CancelPositiveFactor(r, 101, 2 * n);
    assert 0 <= 200 * i + n < 2 * n * (r + 1);
    CancelPositiveFactor(-1, r, 2 * n);
  }

  /** Progress never goes back while pages are processed. */
  lemma ProgressMonotone(i: nat, j: nat, n: nat)
    requires 0 < n && i <= j
    ensures ProgressAfter(i, n) <= ProgressAfter(j, n)
  {
    var ri, rj := ProgressAfter(i, n), ProgressAfter(j, n);
    assert 2 * n * ri <= 200 * i + n <= 200 * j + n < 2 * n * (rj + 1);
    CancelPositiveFactor(ri, rj + 1, 2 * n);
  }

  /** After the last page the progress is exactly 100. */
  lemma ProgressCompletes(n: nat)
    requires 0 < n
    ensures ProgressAfter(n, n) == 100
  {
    var r := ProgressAfter(n, n);
    assert 2 * n * r <= 2 * n * 100 + n < 2 * n * 101;
    CancelPositiveFactor(r, 101, 2 * n);
    assert 2 * n * 100 < 2 * n * (r + 1);
    CancelPositiveFactor(100, r + 1, 2 * n);
  }

  /** The progress values reported after pages 1 to `done` of `totalPages`, in order. */
  function ProgressSteps(done: nat, totalPages: nat): (steps: seq<int>)
    requires done <= totalPages
    ensures |steps| == done
  {
    if done == 0 then [] else ProgressSteps(done - 1, totalPages) + [ProgressAfter(done, totalPages)]
  }

  /** What each page of a file yields, in page order: its text, or a rejection. */
  function PageTexts(sources: seq<PageSource>): (texts: seq<Result<string>>)
    ensures |texts| == |sources|
  {
    seq(|sources|, k requires 0 <= k < |sources| => ExtractText(sources[k]))
  }

  /**
   * The pages, from the first, that yield text before the first one that
   * fails: the loop of `processFile` stops at that page.
   */
  function ReadablePrefix(texts: seq<Result<string>>): (n: nat)
    ensures n <= |texts|
  {
    if texts == [] then 0
    else if texts[0].Err? then 0
    else 1 + ReadablePrefix(texts[1..])
  }

  /** Every page before the stopping point yields text. */
  lemma {:induction false} ReadablePrefixReads(texts: seq<Result<string>>, k: nat)
    requires k < ReadablePrefix(texts)
    ensures texts[k].Ok?
  {
    if k > 0 {
      ReadablePrefixReads(texts[1..], k - 1);
      assert texts[1..][k - 1] == texts[k];
    }
  }

  /** The page at the stopping point, if any, fails. */
  lemma {:induction false} ReadablePrefixFails(texts: seq<Result<string>>)
    requires ReadablePrefix(texts) < |texts|
    ensures texts[ReadablePrefix(texts)].Err?
  {
    if texts[0].Ok? {
      ReadablePrefixFails(texts[1..]);
      assert texts[1..][ReadablePrefix(texts[1..])] == texts[ReadablePrefix(texts)];
    }
  }

  /** Processing stops at the latest at a page that fails. */
  lemma ReadablePrefixStops(texts: seq<Result<string>>, j: nat)
    requires j < |texts| && texts[j].Err?
    ensures ReadablePrefix(texts) <= j
  {
    if j < ReadablePrefix(texts) {
      ReadablePrefixReads(texts, j);
    }
  }

  /** Every page of the file yields text, so `processFile` reaches the end. */
  predicate Processable(file: PdfFile) {
    file.content.Some? && ReadTexts(PageTexts(file.content.value), |file.content.value|).Some?
  }

  /** How many pages `processFile` gets through before it stops. */
  function PagesDone(file: PdfFile): nat {
    if file.content.None? then 0 else ReadablePrefix(PageTexts(file.content.value))
  }

  function PageCount(file: PdfFile): nat {
    if file.content.None? then 0 else |file.content.value|
  }

  /** The page records are numbered 1, 2, 3, ... in order. */
  predicate Numbered(pages: seq<PageContent>) {
    forall k :: 0 <= k < |pages| ==> pages[k].pageNumber == k + 1
  }

  /** The texts of the first `n` pages, or None when one of them fails. */
  function ReadTexts(texts: seq<Result<string>>, n: nat): Option<seq<string>>
    requires n <= |texts|
  {
    if n == 0 then Some([])
    else match ReadTexts(texts, n - 1)
      case None => None
      case Some(read) =>
        match texts[n - 1]
        case Err => None
        case Ok(text) => Some(read + [text])
  }

  /**
   * The records `processFile` builds from the page texts: page `k + 1`
   * holds text `k` and the lines cut from it.
   */
  function Records(pageTexts: seq<string>): (pages: seq<PageContent>)
    ensures |pages| == |pageTexts|
  {
    seq(|pageTexts|, k requires 0 <= k < |pageTexts| => PageContent(k + 1, pageTexts[k], SplitLines(pageTexts[k])))
  }

  lemma RecordsAppend(pageTexts: seq<string>, text: string)
    ensures Records(pageTexts + [text]) == Records(pageTexts) + [PageContent(|pageTexts| + 1, text, SplitLines(text))]
  {
    var a, b := Records(pageTexts + [text]), Records(pageTexts) + [PageContent(|pageTexts| + 1, text, SplitLines(text))];
    forall k | 0 <= k < |a|
      ensures a[k] == b[k]
    {
      if k < |pageTexts| {
        assert (pageTexts + [text])[k] == pageTexts[k];
      }
    }
  }

  /** The first `n` pages can be read exactly when none of them fails. */
  lemma {:induction false} ReadTextsSucceeds(texts: seq<Result<string>>, n: nat)
    requires n <= |texts|
    ensures ReadTexts(texts, n).Some? <==> n <= ReadablePrefix(texts)
  {
    if n > 0 {
      ReadTextsSucceeds(texts, n - 1);
      if n - 1 < ReadablePrefix(texts) {
        ReadablePrefixReads(texts, n - 1);
      } else if n - 1 == ReadablePrefix(texts) {
        ReadablePrefixFails(texts);
      }
    }
  }

  /** Text `k` read is the text extracted from page `k`, in page order. */
  lemma {:induction false} ReadTextsInOrder(texts: seq<Result<string>>, n: nat)
    requires n <= |texts| && ReadTexts(texts, n).Some?
    ensures |ReadTexts(texts, n).value| == n
    ensures forall k :: 0 <= k < n ==> texts[k] == Ok(ReadTexts(texts, n).value[k])
  {
    if n > 0 {
      ReadTextsInOrder(texts, n - 1);
      var before := ReadTexts(texts, n - 1).value;
      assert ReadTexts(texts, n).value == before + [texts[n - 1].value];
    }
  }

  /** A document as `processFile` stores it: the records of every page of its file. */
  predicate WellFormed(doc: PdfDocument) {
    && doc.file.content.Some?
    && doc.name == doc.file.name
    && doc.totalPages == |doc.file.content.value|
    && ReadTexts(PageTexts(doc.file.content.value), doc.totalPages).Some?
    && doc.pages == Records(ReadTexts(PageTexts(doc.file.content.value), doc.totalPages).value)
  }

  /**
   * The pages of a stored document are numbered 1, 2, 3, ...; page `k`
   * holds the text extracted from page `k` of its file and the lines cut
   * from that text.
   */
  lemma WellFormedIsNumbered(doc: PdfDocument)
    requires WellFormed(doc)
    ensures |doc.pages| == doc.totalPages && Numbered(doc.pages)
    ensures forall k :: 0 <= k < |doc.pages| ==>
              ExtractText(doc.file.content.value[k]) == Ok(doc.pages[k].text) &&
              doc.pages[k].lines == SplitLines(doc.pages[k].text)
  {
    var texts := PageTexts(doc.file.content.value);
    ReadTextsInOrder(texts, doc.totalPages);
    var read := ReadTexts(texts, doc.totalPages).value;
    forall k | 0 <= k < |doc.pages|
      ensures ExtractText(doc.file.content.value[k]) == Ok(doc.pages[k].text)
    {
      assert texts[k] == ExtractText(doc.file.content.value[k]);
      assert doc.pages[k].text == read[k];
    }
  }

  /** The lower-cased line `k` of a page matches the lower-cased term: one result. */
  function LineHit(pageNumber: int, lines: seq<string>, k: nat, term: string): seq<SearchResult>
    requires k < |lines|
  {
    var lowered := Lower(lines[k]);
    if Includes(lowered, term) then [SearchResult(pageNumber, k + 1, lines[k], IndexOf(lowered, term))]
    else []
  }

  /** The results of one page, in line order (`page.lines.forEach`). */
  function LineHits(pageNumber: int, lines: seq<string>, term: string): seq<SearchResult> {
    if lines == [] then []
    else LineHits(pageNumber, lines[..|lines| - 1], term) + LineHit(pageNumber, lines, |lines| - 1, term)
  }

  /** The results of the pages, in page order (`document.pages.forEach`). */
  function PageHits(pages: seq<PageContent>, term: string): seq<SearchResult> {
    if pages == [] then []
    else
      var last := pages[|pages| - 1];
      PageHits(pages[..|pages| - 1], term) + LineHits(last.pageNumber, last.lines, term)
  }

  /** What `searchDocument(searchTerm)` returns. */
  function SearchSpec(document: Option<PdfDocument>, searchTerm: string): seq<SearchResult> {
    if document.None? || IsBlank(searchTerm) then []
    else PageHits(document.value.pages, Lower(searchTerm))
  }

  /**
   * `r` reports line `r.lineNumber` of a page with number `pageNumber` and
   * lines `lines`: the original line, whose lower-case form contains `term`
   * first at `r.matchIndex`.
   */
  predicate ReportsLine(r: SearchResult, pageNumber: int, lines: seq<string>, term: string) {
    && r.pageNumber == pageNumber
    && 1 <= r.lineNumber <= |lines|
    && r.lineText == lines[r.lineNumber - 1]
    && 0 <= r.matchIndex
    && OccursAt(Lower(r.lineText), term, r.matchIndex)
    && (forall k :: 0 <= k < r.matchIndex ==> !OccursAt(Lower(r.lineText), term, k))
  }

  /** `a` comes strictly before `b` in page-then-line order. */
  predicate Precedes(a: SearchResult, b: SearchResult) {
    a.pageNumber < b.pageNumber || (a.pageNumber == b.pageNumber && a.lineNumber < b.lineNumber)
  }

  /** Each result of a page reports one of its lines that contains the term. */
  lemma {:induction false} LineHitsSound(pageNumber: int, lines: seq<string>, term: string, j: nat)
    requires j < |LineHits(pageNumber, lines, term)|
    ensures ReportsLine(LineHits(pageNumber, lines, term)[j], pageNumber, lines, term)
  {
    var init := lines[..|lines| - 1];
    var hits := LineHits(pageNumber, lines, term);
    var prev := LineHits(pageNumber, init, term);
    assert hits == prev + LineHit(pageNumber, lines, |lines| - 1, term);
    if j < |prev| {
      LineHitsSound(pageNumber, init, term, j);
      assert lines[prev[j].lineNumber - 1] == init[prev[j].lineNumber - 1];
    }
  }

  /** Each result of a page carries that page's number and one of its line numbers. */
  lemma {:induction false} LineHitsOnPage(pageNumber: int, lines: seq<string>, term: string, j: nat)
    requires j < |LineHits(pageNumber, lines, term)|
    ensures LineHits(pageNumber, lines, term)[j].pageNumber == pageNumber
    ensures 1 <= LineHits(pageNumber, lines, term)[j].lineNumber <= |lines|
  {
    var init := lines[..|lines| - 1];
    var prev := LineHits(pageNumber, init, term);
    assert LineHits(pageNumber, lines, term) == prev + LineHit(pageNumber, lines, |lines| - 1, term);
    if j < |prev| {
      LineHitsOnPage(pageNumber, init, term, j);
    }
  }

  /** The results of a page come in line order. */
  lemma {:induction false} LineHitsOrdered(pageNumber: int, lines: seq<string>, term: string)
    ensures forall i, j :: 0 <= i < j < |LineHits(pageNumber, lines, term)| ==>
              LineHits(pageNumber, lines, term)[i].lineNumber < LineHits(pageNumber, lines, term)[j].lineNumber
  {
    if lines != [] {
      var init := lines[..|lines| - 1];
      LineHitsOrdered(pageNumber, init, term);
      var hits := LineHits(pageNumber, lines, term);
      var prev := LineHits(pageNumber, init, term);
      assert hits == prev + LineHit(pageNumber, lines, |lines| - 1, term);
      forall i, j | 0 <= i < j < |hits|
        ensures hits[i].lineNumber < hits[j].lineNumber
      {
        if j >= |prev| {
          LineHitsOnPage(pageNumber, init, term, i);
        }
      }
    }
  }

  lemma {:induction false} LineHitsComplete(pageNumber: int, lines: seq<string>, term: string, k: nat)
    requires k < |lines| && Includes(Lower(lines[k]), term)
    ensures exists j :: 0 <= j < |LineHits(pageNumber, lines, term)| &&
              LineHits(pageNumber, lines, term)[j].lineNumber == k + 1
  {
    var hits := LineHits(pageNumber, lines, term);
    var init := lines[..|lines| - 1];
    if k == |lines| - 1 {
      assert hits[|hits| - 1].lineNumber == k + 1;
    } else {
      LineHitsComplete(pageNumber, init, term, k);
      var j :| 0 <= j < |LineHits(pageNumber, init, term)| && LineHits(pageNumber, init, term)[j].lineNumber == k + 1;
      assert hits[j].lineNumber == k + 1;
    }
  }

  /** Each result reports, on an existing page, a line of that page that contains the term. */
  lemma {:induction false} PageHitsSound(pages: seq<PageContent>, term: string, j: nat)
    requires Numbered(pages)
    requires j < |PageHits(pages, term)|
    ensures var r := PageHits(pages, term)[j];
            1 <= r.pageNumber <= |pages| && ReportsLine(r, r.pageNumber, pages[r.pageNumber - 1].lines, term)
  {
    var init := pages[..|pages| - 1];
    var last := pages[|pages| - 1];
    var prev := PageHits(init, term);
    var hits := PageHits(pages, term);
    assert hits == prev + LineHits(last.pageNumber, last.lines, term);
    if j < |prev| {
      PageHitsSound(init, term, j);
      assert pages[hits[j].pageNumber - 1] == init[hits[j].pageNumber - 1];
    } else {
      LineHitsSound(last.pageNumber, last.lines, term, j - |prev|);
    }
  }

  /** Each result carries the number of one of the pages. */
  lemma {:induction false} PageHitsOnPages(pages: seq<PageContent>, term: string, j: nat)
    requires Numbered(pages)
    requires j < |PageHits(pages, term)|
    ensures 1 <= PageHits(pages, term)[j].pageNumber <= |pages|
  {
    var init := pages[..|pages| - 1];
    var last := pages[|pages| - 1];
    var prev := PageHits(init, term);
    assert PageHits(pages, term) == prev + LineHits(last.pageNumber, last.lines, term);
    if j < |prev| {
      PageHitsOnPages(init, term, j);
    } else {
      LineHitsOnPage(last.pageNumber, last.lines, term, j - |prev|);
    }
  }

  /** The results come in page order, then line order. */
  lemma {:induction false} PageHitsOrdered(pages: seq<PageContent>, term: string)
    requires Numbered(pages)
    ensures forall i, j :: 0 <= i < j < |PageHits(pages, term)| ==>
              Precedes(PageHits(pages, term)[i], PageHits(pages, term)[j])
  {
    if pages != [] {
      var init := pages[..|pages| - 1];
      var last := pages[|pages| - 1];
      PageHitsOrdered(init, term);
      LineHitsOrdered(last.pageNumber, last.lines, term);
      var prev := PageHits(init, term);
      var own := LineHits(last.pageNumber, last.lines, term);
      var hits := PageHits(pages, term);
      assert hits == prev + own;
      forall i, j | 0 <= i < j < |hits|
        ensures Precedes(hits[i], hits[j])
      {
        if j < |prev| {
          assert hits[i] == prev[i] && hits[j] == prev[j];
        } else if i < |prev| {
          assert hits[i] == prev[i] && hits[j] == own[j - |prev|];
          PageHitsOnPages(init, term, i);
          LineHitsOnPage(last.pageNumber, last.lines, term, j - |prev|);
          assert last.pageNumber == |pages|;
        } else {
          assert hits[i] == own[i - |prev|] && hits[j] == own[j - |prev|];
          LineHitsOnPage(last.pageNumber, last.lines, term, i - |prev|);
          LineHitsOnPage(last.pageNumber, last.lines, term, j - |prev|);
        }
      }
    }
  }

  lemma {:induction false} PageHitsComplete(pages: seq<PageContent>, term: string, p: nat, k: nat)
    requires p < |pages| && k < |pages[p].lines|
    requires Includes(Lower(pages[p].lines[k]), term)
    ensures exists j :: 0 <= j < |PageHits(pages, term)| &&
              PageHits(pages, term)[j].pageNumber == pages[p].pageNumber &&
              PageHits(pages, term)[j].lineNumber == k + 1
  {
    var init := pages[..|pages| - 1];
    var last := pages[|pages| - 1];
    var prev := PageHits(init, term);
    var hits := PageHits(pages, term);
    if p == |pages| - 1 {
      LineHitsComplete(last.pageNumber, last.lines, term, k);
      var own := LineHits(last.pageNumber, last.lines, term);
      var j :| 0 <= j < |own| && own[j].lineNumber == k + 1;
      LineHitsSound(last.pageNumber, last.lines, term, j);
      assert hits[|prev| + j] == own[j];
    } else {
      PageHitsComplete(init, term, p, k);
      var j :| 0 <= j < |prev| && prev[j].pageNumber == pages[p].pageNumber && prev[j].lineNumber == k + 1;
      assert hits[j] == prev[j];
    }
  }

  /**
   * Every result reports a line of the stored document whose lower-case
   * form contains the lower-cased term (not trimmed), with the original
   * line text, its 1-based line number and the first match offset.
   */
  lemma SearchSound(document: Option<PdfDocument>, searchTerm: string, j: nat)
    requires document.Some? ==> Numbered(document.value.pages)
    requires j < |SearchSpec(document, searchTerm)|
    ensures document.Some? && !IsBlank(searchTerm)
    ensures var r := SearchSpec(document, searchTerm)[j];
            var pages := document.value.pages;
            1 <= r.pageNumber <= |pages| &&
            ReportsLine(r, r.pageNumber, pages[r.pageNumber - 1].lines, Lower(searchTerm))
  {
    if document.Some? && !IsBlank(searchTerm) {
      var pages := document.value.pages;
      var hits := SearchSpec(document, searchTerm);
      assert hits == PageHits(pages, Lower(searchTerm));
      PageHitsSound(pages, Lower(searchTerm), j);
      assert hits[j] == PageHits(pages, Lower(searchTerm))[j];
    }
  }

  /** Every line of the document that contains the term, ignoring case, is reported. */
  lemma SearchComplete(document: Option<PdfDocument>, searchTerm: string, p: nat, k: nat)
    requires document.Some? && !IsBlank(searchTerm)
    requires p < |document.value.pages| && k < |document.value.pages[p].lines|
    requires Includes(Lower(document.value.pages[p].lines[k]), Lower(searchTerm))
    ensures exists j :: 0 <= j < |SearchSpec(document, searchTerm)| &&
              SearchSpec(document, searchTerm)[j].pageNumber == document.value.pages[p].pageNumber &&
              SearchSpec(document, searchTerm)[j].lineNumber == k + 1
  {
    assert SearchSpec(document, searchTerm) == PageHits(document.value.pages, Lower(searchTerm));
    PageHitsComplete(document.value.pages, Lower(searchTerm), p, k);
  }

  /** Results come in page order, then line order, so no line is reported twice. */
  lemma SearchOrdered(document: Option<PdfDocument>, searchTerm: string)
    requires document.Some? ==> Numbered(document.value.pages)
    ensures InPageLineOrder(SearchSpec(document, searchTerm))
  {
    if document.Some? && !IsBlank(searchTerm) {
      PageHitsOrdered(document.value.pages, Lower(searchTerm));
    }
  }

  /** The results come strictly in page order, then line order. */
  predicate InPageLineOrder(results: seq<SearchResult>) {
    forall i, j :: 0 <= i < j < |results| ==> Precedes(results[i], results[j])
  }

  /**
   * Every result names a page of the document and reports a line of that
   * page whose lower-case form contains the lowered term.
   */
  predicate ResultsSound(document: Option<PdfDocument>, searchTerm: string, results: seq<SearchResult>) {
    forall j :: 0 <= j < |results| ==>
      document.Some? && 1 <= results[j].pageNumber <= |document.value.pages| &&
      ReportsLine(results[j], results[j].pageNumber, document.value.pages[results[j].pageNumber - 1].lines, Lower(searchTerm))
  }

  /** Every result is sound, for all results at once. */
  lemma SearchResultsSound(document: Option<PdfDocument>, searchTerm: string)
    requires document.Some? ==> Numbered(document.value.pages)
    ensures ResultsSound(document, searchTerm, SearchSpec(document, searchTerm))
  {
    var hits := SearchSpec(document, searchTerm);
    forall j | 0 <= j < |hits|
      ensures document.Some? && 1 <= hits[j].pageNumber <= |document.value.pages| &&
              ReportsLine(hits[j], hits[j].pageNumber, document.value.pages[hits[j].pageNumber - 1].lines, Lower(searchTerm))
    {
      SearchSound(document, searchTerm, j);
    }
  }

  /** A result of a stored document names one of its pages, 1 to `totalPages`. */
  lemma ResultPageExists(document: Option<PdfDocument>, searchTerm: string, j: nat)
    requires document.Some? ==> WellFormed(document.value)
    requires j < |SearchSpec(document, searchTerm)|
    ensures document.Some? && 1 <= SearchSpec(document, searchTerm)[j].pageNumber <= document.value.totalPages
  {
    if document.Some? {
      WellFormedIsNumbered(document.value);
    }
    SearchSound(document, searchTerm, j);
  }

  class Processor {
    var isProcessing: bool
    var progress: int
    var document: Option<PdfDocument>

    ghost predicate Valid()
      reads this
    {
      && 0 <= progress <= 100
      && (document.Some? ==> WellFormed(document.value))
    }

    /** The hook's initial state. */
    constructor ()
      ensures Valid()
      ensures !isProcessing && progress == 0 && document == None
    {
      isProcessing := false;
      progress := 0;
      document := None;
    }

    /**
     * The page loop of `processFile`: pages are read in order until one
     * fails, and after each page read `progress` is set to the rounded
     * percentage; `progressLog` lists those values in order.
     */
    method ReadPages(sources: seq<PageSource>) returns (pages: seq<PageContent>, failed: bool, progressLog: seq<int>)
      requires 0 <= progress <= 100
      modifies this`progress
      ensures 0 <= progress <= 100
      ensures failed <==> ReadTexts(PageTexts(sources), |sources|).None?
      ensures !failed ==> pages == Records(ReadTexts(PageTexts(sources), |sources|).value)
      ensures progressLog == ProgressSteps(ReadablePrefix(PageTexts(sources)), |sources|)
    {
      ghost var texts := PageTexts(sources);
      ghost var read: seq<string> := [];
      var totalPages := |sources|;
      pages := [];
      failed := false;
      progressLog := [];
      var i := 1;
      while i <= totalPages
        invariant 1 <= i <= totalPages + 1
        invariant ReadTexts(texts, i - 1) == Some(read) && |read| == i - 1
        invariant pages == Records(read)
        invariant progressLog == ProgressSteps(i - 1, totalPages)
        invariant 0 <= progress <= 100
      {
        var extracted := ExtractText(sources[i - 1]);
        assert extracted == texts[i - 1];
        if extracted.Err? {
          failed := true;
          break;
        }
        var text := extracted.value;
        var lines := SplitLines(text);
        assert ReadTexts(texts, i) == Some(read + [text]);
        RecordsAppend(read, text);
        pages := pages + [PageContent(i, text, lines)];
        read := read + [text];
        ProgressInRange(i, totalPages);
        progress := ProgressAfter(i, totalPages);
        progressLog := progressLog + [progress];
        i := i + 1;
      }
      if failed {
        ReadablePrefixStops(texts, i - 1);
      }
      ReadTextsSucceeds(texts, i - 1);
      ReadTextsSucceeds(texts, totalPages);
      assert ReadablePrefix(texts) == i - 1;
    }

    /**
     * `processFile(file)`.  `progressLog` lists every value given to
     * `progress`, in order: 0 at the start, the rounded percentage after
     * each processed page, 0 at the end.  The stored document is replaced
     * only when every page yields text; otherwise it is left as it was.
     */
    method ProcessFile(file: PdfFile) returns (progressLog: seq<int>)
      requires Valid()
      modifies this
      ensures Valid()
      ensures !isProcessing && progress == 0
      ensures Processable(file) ==>
                document.Some? && document.value.file == file && WellFormed(document.value)
      ensures !Processable(file) ==> document == old(document)
      ensures progressLog == [0] + ProgressSteps(PagesDone(file), PageCount(file)) + [0]
    {
      isProcessing := true;
      progress := 0;
      progressLog := [0];
      if file.content.Some? {
        var sources := file.content.value;
        var pages, failed, pageLog := ReadPages(sources);
        progressLog := progressLog + pageLog;
        if !failed {
          document := Some(PdfDocument(file, file.name, pages, |sources|));
        }
      }
      isProcessing := false;
      progress := 0;
      progressLog := progressLog + [0];
    }

    /** `searchDocument(searchTerm)`. */
    method SearchDocument(searchTerm: string) returns (results: seq<SearchResult>)
      requires Valid()
      ensures results == SearchSpec(document, searchTerm)
      ensures ResultsSound(document, searchTerm, results)
      ensures InPageLineOrder(results)
    {
      if document.None? || IsBlank(searchTerm) {
        results := [];
      } else {
        results := SearchPages(document.value.pages, Lower(searchTerm));
        WellFormedIsNumbered(document.value);
      }
      SearchResultsSound(document, searchTerm);
      SearchOrdered(document, searchTerm);
    }

    /** The outer `document.pages.forEach` of `searchDocument`. */
    static method SearchPages(pages: seq<PageContent>, term: string) returns (results: seq<SearchResult>)
      ensures results == PageHits(pages, term)
    {
      results := [];
      var p := 0;
      while p < |pages|
        invariant 0 <= p <= |pages|
        invariant results == PageHits(pages[..p], term)
      {
        var hits := SearchLines(pages[p].pageNumber, pages[p].lines, term);
        results := results + hits;
        assert pages[..p + 1][..p] == pages[..p];
        p := p + 1;
      }
      assert pages[..p] == pages;
    }

    /** The inner `page.lines.forEach` of `searchDocument`, for one page. */
    static method SearchLines(pageNumber: int, lines: seq<string>, term: string) returns (hits: seq<SearchResult>)
      ensures hits == LineHits(pageNumber, lines, term)
    {
      hits := [];
      var k := 0;
      while k < |lines|
        invariant 0 <= k <= |lines|
        invariant hits == LineHits(pageNumber, lines[..k], term)
      {
        var line := lines[k];
        var lowered := Lower(line);
        if Includes(lowered, term) {
          var matchIndex := IndexOf(lowered, term);
          hits := hits + [SearchResult(pageNumber, k + 1, line, matchIndex)];
        }
        assert lines[..k + 1][..k] == lines[..k];
        k := k + 1;
      }
      assert lines[..k] == lines;
    }

    /** `clearDocument()`. */
    method ClearDocument()
      requires Valid()
      modifies this
      ensures Valid()
      ensures document == None
      ensures isProcessing == old(isProcessing) && progress == old(progress)
    {
      document := None;
    }
  }
}
