/**
 * `SearchResults`: the result list, or the "No results found" view, with
 * every occurrence of the search term in a result line highlighted.
 */
module SearchResultsView {
  import opened JsText
  import opened JsSplit
  import opened PdfTypes
  import PdfProcessor

  /** The characters `[.*+?^${}()|[\]\\]` matches. */
  predicate IsMetaChar(c: char) {
    c in ".*+?^${}()|[]\\"
  }

  /**
   * A pattern with no operator in it: every metacharacter is escaped, and
   * every backslash escapes the character after it.
   */
  predicate IsLiteralPattern(p: string)
    decreases |p|
  {
    if p == [] then true
    else if p[0] == '\\' then |p| >= 2 && IsLiteralPattern(p[2..])
    else !IsMetaChar(p[0]) && IsLiteralPattern(p[1..])
  }

  /** `term.replace(/[.*+?^${}()|[\]\\]/g, '\\$&')`. */
  function Escape(term: string): (p: string)
    ensures IsLiteralPattern(p)
    ensures |p| >= |term|
  {
    if term == [] then []
    else
      var rest := Escape(term[1..]);
      if IsMetaChar(term[0]) then
        assert (['\\', term[0]] + rest)[2..] == rest;
        ['\\', term[0]] + rest
      else
        assert ([term[0]] + rest)[1..] == rest;
        [term[0]] + rest
  }

  /** The string a literal pattern matches: `\x` stands for `x`. */
  function Unescape(p: string): string
    decreases |p|
  {
    if p == [] then []
    else if p[0] == '\\' && |p| >= 2 then [p[1]] + Unescape(p[2..])
    else [p[0]] + Unescape(p[1..])
  }

  /** The escaped pattern matches the term itself, character for character. */
  lemma {:induction false} UnescapeEscape(term: string)
    ensures Unescape(Escape(term)) == term
  {
    if term != [] {
      UnescapeEscape(term[1..]);
      var rest := Escape(term[1..]);
      if IsMetaChar(term[0]) {
        assert (['\\', term[0]] + rest)[2..] == rest;
      } else {
        assert term[0] != '\\';
        assert ([term[0]] + rest)[1..] == rest;
      }
      assert [term[0]] + term[1..] == term;
    }
  }

  /** Escaping a term without metacharacters leaves it as it is. */
  lemma {:induction false} EscapePlain(term: string)
    requires forall i :: 0 <= i < |term| ==> !IsMetaChar(term[i])
    ensures Escape(term) == term
  {
    if term != [] {
      EscapePlain(term[1..]);
      assert [term[0]] + term[1..] == term;
    }
  }

  /**
   * Escaping works character by character: a metacharacter gets a
   * backslash in front of it, and any other character is kept as it is.
   */
  lemma EscapeChar(c: char)
    ensures Escape([c]) == if IsMetaChar(c) then ['\\', c] else [c]
  {
    assert [c][1..] == [];
  }

  /** Escaping a concatenation escapes each part on its own, so the characters of a mixed term keep their order. */
  lemma {:induction false} EscapeAppend(a: string, b: string)
    ensures Escape(a + b) == Escape(a) + Escape(b)
  {
    if a == [] {
      assert a + b == b;
    } else {
      var ab := a + b;
      assert ab[0] == a[0] && ab[1..] == a[1..] + b;
      EscapeAppend(a[1..], b);
      if IsMetaChar(a[0]) {
        assert Escape(ab) == ['\\', a[0]] + Escape(a[1..] + b);
      } else {
        assert Escape(ab) == [a[0]] + Escape(a[1..] + b);
      }
    }
  }

  /** `t` occurs in `s` at `k` when both are lower-cased (the `i` flag). */
  predicate CiOccursAt(s: string, t: string, k: nat) {
    k + |t| <= |s| && Lower(s[k..k + |t|]) == Lower(t)
  }

  /**
   * The sticky matcher of `new RegExp("(" + Escape(term) + ")", "gi")`.  It
   * is written from the term itself: the escaped pattern is taken to match
   * what its unescaped form spells (`UnescapeEscape`), ignoring case.
   * Case is folded with the same ASCII `Lower` the search uses.  In
   * JavaScript the two differ: the search lowers with `toLowerCase`, while
   * the `i` flag without `u` compares upper-cased characters.  So "\u212A"
   * (KELVIN SIGN) is found by the term "k" but not highlighted by `/(k)/gi`,
   * and "\u0130" with the term "i" likewise; the model does not show that.
   */
  function CiMatcher(term: string): Matcher {
    (s: string, q: nat) => if CiOccursAt(s, term, q) then |term| else 0
  }

  datatype Segment = Plain(text: string) | Marked(text: string)

  /** What `highlightText` renders: the bare text, or a list of `<span>` and `<mark>` parts. */
  datatype Highlighted = Unsegmented(text: string) | Segments(parts: seq<Segment>)

  /**
   * `highlightText(text, searchTerm)`: with a whitespace-only term, the
   * text itself; otherwise the parts of `text.split(regex)`, the matched
   * ones (at odd positions) marked.
   */
  function HighlightText(text: string, searchTerm: string): (h: Highlighted)
    ensures h.Unsegmented? <==> IsBlank(searchTerm)
    ensures h.Unsegmented? ==> h.text == text
  {
    if IsBlank(searchTerm) then Unsegmented(text)
    else
      var parts := SplitCapturing(CiMatcher(searchTerm), text);
      Segments(seq(|parts|, i requires 0 <= i < |parts| =>
        if i % 2 == 1 then Marked(parts[i]) else Plain(parts[i])))
  }

  function SegmentTexts(segs: seq<Segment>): seq<string> {
    seq(|segs|, i requires 0 <= i < |segs| => segs[i].text)
  }

  /** A term that is not whitespace-only is not empty, so every match is non-empty. */
  lemma NonBlankIsNonEmpty(term: string)
    requires !IsBlank(term)
    ensures |term| > 0
  {
  }

  /**
   * The highlighted parts put back together give the line exactly; they
   * alternate between unmarked and marked, starting and ending unmarked;
   * a marked part is the term up to case; and no unmarked part contains
   * the term, in any case.
   */
  lemma HighlightSegments(text: string, searchTerm: string)
    requires !IsBlank(searchTerm)
    ensures var segs := HighlightText(text, searchTerm).parts;
            && Concat(SegmentTexts(segs)) == text
            && |segs| % 2 == 1
            && (forall i :: 0 <= i < |segs| ==> (segs[i].Marked? <==> i % 2 == 1))
            && (forall i :: 0 <= i < |segs| && segs[i].Marked? ==>
                  Lower(segs[i].text) == Lower(searchTerm))
            && (forall i, k :: 0 <= i < |segs| && segs[i].Plain? && 0 <= k <= |segs[i].text| ==>
                  !CiOccursAt(segs[i].text, searchTerm, k))
  {
    var segs := HighlightText(text, searchTerm).parts;
    assert SegmentTexts(segs) == SplitCapturing(CiMatcher(searchTerm), text);
    MarkedPartsMatch(text, searchTerm);
    PlainPartsDoNotMatch(text, searchTerm);
  }

  lemma MarkedPartsMatch(text: string, searchTerm: string)
    requires !IsBlank(searchTerm)
    ensures var segs := HighlightText(text, searchTerm).parts;
            forall i :: 0 <= i < |segs| && segs[i].Marked? ==> Lower(segs[i].text) == Lower(searchTerm)
  {
    var m := CiMatcher(searchTerm);
    var r := Spans(m, text);
    SpansShape(m, text);
    assert SplitCapturing(m, text) == Slices(text, r);
    var segs := HighlightText(text, searchTerm).parts;
    forall i | 0 <= i < |segs| && segs[i].Marked?
      ensures Lower(segs[i].text) == Lower(searchTerm)
    {
      assert MatchesAt(m, text, r[i].lo);
    }
  }

  lemma PlainPartsDoNotMatch(text: string, searchTerm: string)
    requires !IsBlank(searchTerm)
    ensures var segs := HighlightText(text, searchTerm).parts;
            forall i, k :: 0 <= i < |segs| && segs[i].Plain? && 0 <= k <= |segs[i].text| ==>
              !CiOccursAt(segs[i].text, searchTerm, k)
  {
    NonBlankIsNonEmpty(searchTerm);
    var m := CiMatcher(searchTerm);
    var r := Spans(m, text);
    SpansShape(m, text);
    assert SplitCapturing(m, text) == Slices(text, r);
    var segs := HighlightText(text, searchTerm).parts;
    forall i, k | 0 <= i < |segs| && segs[i].Plain? && 0 <= k <= |segs[i].text|
      ensures !CiOccursAt(segs[i].text, searchTerm, k)
    {
      PlainPieceHasNoMatch(text, searchTerm, r[i].lo, r[i].hi, k);
    }
  }

  lemma PlainPieceHasNoMatch(text: string, term: string, lo: nat, hi: nat, k: nat)
    requires |term| > 0 && lo <= hi <= |text| && k <= hi - lo
    requires forall j :: lo <= j < hi ==> !MatchesAt(CiMatcher(term), text, j)
    ensures !CiOccursAt(text[lo..hi], term, k)
  {
    var piece := text[lo..hi];
    if k + |term| <= |piece| {
      assert forall j :: 0 <= j < |piece| ==> piece[j] == text[lo + j];
      assert piece[k..k + |term|] == text[lo + k..lo + k + |term|];
      assert !MatchesAt(CiMatcher(term), text, lo + k);
      assert !CiOccursAt(text, term, lo + k);
    }
  }

  /**
   * `regex.test(part)` with the `g` flag: the search starts at `lastIndex`;
   * a match moves `lastIndex` to its end, a failure (or a `lastIndex` past
   * the end) resets it to 0.
   */
  function RegexTest(term: string, part: string, lastIndex: nat): (result: (bool, nat))
    decreases |part| - lastIndex
  {
    if lastIndex > |part| then (false, 0)
    else if CiOccursAt(part, term, lastIndex) then (true, lastIndex + |term|)
    else if lastIndex == |part| then (false, 0)
    else RegexTest(term, part, lastIndex + 1)
  }

  /** The answers of `regex.test` on each part in turn, the regex being shared. */
  function TestEach(term: string, parts: seq<string>, lastIndex: nat): seq<bool> {
    if parts == [] then []
    else
      var (found, next) := RegexTest(term, parts[0], lastIndex);
      [found] + TestEach(term, parts[1..], next)
  }

  lemma {:induction false} RegexTestNoMatch(term: string, part: string, lastIndex: nat)
    requires forall k :: 0 <= k <= |part| ==> !CiOccursAt(part, term, k)
    ensures RegexTest(term, part, lastIndex) == (false, 0)
    decreases |part| - lastIndex
  {
    if lastIndex < |part| {
      RegexTestNoMatch(term, part, lastIndex + 1);
    }
  }

  /**
   * The `g` flag makes `regex.test` remember where its last match ended,
   * yet it answers exactly "is this a marked part" on every part: an
   * unmarked part never contains the term and resets the position to 0,
   * and a marked part is the term itself, found at 0.
   */
  lemma {:induction false} TestEachMarksMatches(term: string, parts: seq<string>, lastIndex: nat)
    requires |parts| % 2 == 1
    requires forall i :: 0 <= i < |parts| && i % 2 == 1 ==>
               |parts[i]| == |term| && Lower(parts[i]) == Lower(term)
    requires forall i, k :: 0 <= i < |parts| && i % 2 == 0 && 0 <= k <= |parts[i]| ==>
               !CiOccursAt(parts[i], term, k)
    ensures TestEach(term, parts, lastIndex) == seq(|parts|, i => i % 2 == 1)
    decreases |parts|
  {
    RegexTestNoMatch(term, parts[0], lastIndex);
    if |parts| > 1 {
      var rest := parts[2..];
      assert parts[1..][1..] == rest;
      assert CiOccursAt(parts[1], term, 0) by {
        assert parts[1][0..|term|] == parts[1];
      }
      forall i | 0 <= i < |rest| && i % 2 == 1
        ensures |rest[i]| == |term| && Lower(rest[i]) == Lower(term)
      {
        assert rest[i] == parts[i + 2] && (i + 2) % 2 == 1;
      }
      forall i, k | 0 <= i < |rest| && i % 2 == 0 && 0 <= k <= |rest[i]|
        ensures !CiOccursAt(rest[i], term, k)
      {
        assert rest[i] == parts[i + 2] && (i + 2) % 2 == 0;
      }
      TestEachMarksMatches(term, rest, |term|);
      assert TestEach(term, parts, lastIndex) == [false, true] + TestEach(term, rest, |term|);
    }
  }

  /** Marking the parts that `regex.test` accepts marks exactly the odd parts. */
  lemma RegexTestMarksOddParts(text: string, searchTerm: string)
    requires !IsBlank(searchTerm)
    ensures var parts := SplitCapturing(CiMatcher(searchTerm), text);
            TestEach(searchTerm, parts, 0) == seq(|parts|, i => i % 2 == 1)
  {
    NonBlankIsNonEmpty(searchTerm);
    var m := CiMatcher(searchTerm);
    var r := Spans(m, text);
    SpansShape(m, text);
    var parts := SplitCapturing(m, text);
    assert parts == Slices(text, r);
    forall i | 0 <= i < |parts| && i % 2 == 1
      ensures |parts[i]| == |searchTerm| && Lower(parts[i]) == Lower(searchTerm)
    {
      assert MatchesAt(m, text, r[i].lo);
    }
    forall i, k | 0 <= i < |parts| && i % 2 == 0 && 0 <= k <= |parts[i]|
      ensures !CiOccursAt(parts[i], searchTerm, k)
    {
      PlainPieceHasNoMatch(text, searchTerm, r[i].lo, r[i].hi, k);
    }
    TestEachMarksMatches(searchTerm, parts, 0);
  }

  /** One entry of the result list: its page and line badges and its highlighted line. */
  datatype ResultItem = ResultItem(pageNumber: int, lineNumber: int, line: Highlighted)

  datatype ResultsView = NoResultsFound | ResultList(items: seq<ResultItem>)

  /**
   * The view `SearchResults` renders: the "No results found" message when
   * there are no results and the term string is not empty (a whitespace-
   * only term included), otherwise one entry per result, in order.
   */
  function ChooseView(results: seq<SearchResult>, searchTerm: string): (v: ResultsView)
    ensures v == NoResultsFound <==> |results| == 0 && |searchTerm| > 0
    ensures v.ResultList? ==> |v.items| == |results|
  {
    if |results| == 0 && |searchTerm| > 0 then NoResultsFound
    else ResultList(seq(|results|, i requires 0 <= i < |results| =>
      ResultItem(results[i].pageNumber, results[i].lineNumber,
                 HighlightText(results[i].lineText, searchTerm))))
  }

  /** Clicking entry `i` asks the viewer to show that result's page. */
  function OnResultClick(results: seq<SearchResult>, i: nat): (page: int)
    requires i < |results|
  {
    results[i].pageNumber
  }

  /**
   * Clicking a result of the stored document asks the viewer for one of the
   * document's pages, 1 to `totalPages`.
   */
  lemma ClickedPageExists(document: Option<PdfDocument>, searchTerm: string, i: nat)
    requires document.Some? ==> PdfProcessor.WellFormed(document.value)
    requires i < |PdfProcessor.SearchSpec(document, searchTerm)|
    ensures document.Some?
    ensures 1 <= OnResultClick(PdfProcessor.SearchSpec(document, searchTerm), i) <= document.value.totalPages
  {
    PdfProcessor.ResultPageExists(document, searchTerm, i);
  }

  /** A term of spaces only finds nothing, so it shows the "No results found" view. */
  lemma BlankTermShowsNoResults(document: Option<PdfDocument>, searchTerm: string)
    requires searchTerm != [] && IsBlank(searchTerm)
    ensures ChooseView(PdfProcessor.SearchSpec(document, searchTerm), searchTerm) == NoResultsFound
  {
  }

  /** A line where the term occurs, ignoring case, is displayed with at least one highlighted part. */
  lemma OccurrenceIsHighlighted(line: string, searchTerm: string, k: nat)
    requires !IsBlank(searchTerm)
    requires CiOccursAt(line, searchTerm, k)
    ensures var h := HighlightText(line, searchTerm);
            h.Segments? && exists i :: 0 <= i < |h.parts| && h.parts[i].Marked?
  {
    var m := CiMatcher(searchTerm);
    NonBlankIsNonEmpty(searchTerm);
    assert MatchesAt(m, line, k);
    SpansShape(m, line);
    assert |Spans(m, line)| >= 3;
    HighlightSegments(line, searchTerm);
    assert HighlightText(line, searchTerm).parts[1].Marked?;
  }

  /**
   * Every search result is listed as entry j of the view, with its page and
   * line badges, and its line has at least one highlighted part.
   */
  lemma SearchHitIsHighlighted(document: Option<PdfDocument>, searchTerm: string, j: nat)
    requires document.Some? ==> PdfProcessor.Numbered(document.value.pages)
    requires j < |PdfProcessor.SearchSpec(document, searchTerm)|
    ensures var results := PdfProcessor.SearchSpec(document, searchTerm);
            var v := ChooseView(results, searchTerm);
            v.ResultList? && j < |v.items|
            && v.items[j].pageNumber == results[j].pageNumber
            && v.items[j].lineNumber == results[j].lineNumber
            && var h := v.items[j].line;
               h.Segments? && exists i :: 0 <= i < |h.parts| && h.parts[i].Marked?
  {
    var results := PdfProcessor.SearchSpec(document, searchTerm);
    PdfProcessor.SearchSound(document, searchTerm, j);
    var r := results[j];
    var line, k := r.lineText, r.matchIndex;
    assert OccursAt(Lower(line), Lower(searchTerm), k);
    LowerSlice(line, k, k + |searchTerm|);
    OccurrenceIsHighlighted(line, searchTerm, k);
    var v := ChooseView(results, searchTerm);
    assert v.items[j].line == HighlightText(line, searchTerm);
  }
}
