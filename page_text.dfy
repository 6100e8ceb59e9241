/**
 * The pure steps of `usePDFProcessor`: a page's text is its text-layer
 * items joined by one space, replaced by the OCR text when it trims to
 * fewer than 50 characters; the text is then cut into lines by the regular
 * expression `/\n|(?<=\.)\s+|(?<=\?)\s+|(?<=!)\s+/`, and whitespace-only
 * pieces are dropped.
 */
module PageText {
  import opened JsText
  import opened JsSplit
  import opened PdfTypes

  /** A page whose text layer trims to fewer characters than this is read by OCR. */
  const OcrThreshold := 50

  /** `textContent.items.map(item => item.str).join(" ")`. */
  function JoinItems(items: seq<string>): string {
    Join(items, " ")
  }

  /** `text.trim().length < 50`. */
  predicate NeedsOcr(text: string) {
    |Trim(text)| < OcrThreshold
  }

  /**
   * `extractTextFromPage`: the joined text layer, unless it needs OCR, in
   * which case the OCR text verbatim.  A rejection of the text layer or of
   * OCR rejects the page.
   */
  function ExtractText(page: PageSource): Result<string>
  {
    match page.textItems
    case None => Err
    case Some(items) =>
      var text := JoinItems(items);
      if NeedsOcr(text) then
        match page.ocr
        case Recognized(t) => Ok(t)
        case RecognitionFailed => Err
      else Ok(text)
  }

  /**
   * A page fails exactly when its text layer cannot be read, or when it
   * needs OCR and recognition fails; a page that succeeds gets either its
   * text layer or its OCR text.
   */
  lemma ExtractTextFails(page: PageSource)
    ensures ExtractText(page).Err? <==>
              page.textItems.None? ||
              (NeedsOcr(JoinItems(page.textItems.value)) && page.ocr.RecognitionFailed?)
    ensures ExtractText(page).Ok? ==>
              ExtractText(page).value == JoinItems(page.textItems.value) ||
              (page.ocr.Recognized? && ExtractText(page).value == page.ocr.text)
  {
  }

  /**
   * For a page whose OCR text differs from its text layer, the OCR text is
   * what the page gets exactly when the text layer trims to fewer than 50
   * characters; it is returned as is, even when shorter or empty.
   */
  lemma OcrUsedIffShort(items: seq<string>, ocrText: string)
    requires ocrText != JoinItems(items)
    ensures ExtractText(PageSource(Some(items), Recognized(ocrText))) == Ok(ocrText)
            <==> |Trim(JoinItems(items))| < 50
  {
  }

  /** A text layer with at least 50 non-whitespace characters is never replaced by OCR. */
  lemma VisibleTextLayerIsKept(page: PageSource)
    requires page.textItems.Some?
    requires |RemoveSpaces(JoinItems(page.textItems.value))| >= OcrThreshold
    ensures ExtractText(page) == Ok(JoinItems(page.textItems.value))
  {
    TrimKeepsVisibleLength(JoinItems(page.textItems.value));
  }

  /** A page with an empty or whitespace-only text layer always goes to OCR. */
  lemma BlankTextLayerGoesToOcr(page: PageSource)
    requires page.textItems.Some? && IsBlank(JoinItems(page.textItems.value))
    ensures ExtractText(page) == (if page.ocr.Recognized? then Ok(page.ocr.text) else Err)
  {
    TrimFacts(JoinItems(page.textItems.value));
  }

  predicate IsSentenceEnd(c: char) {
    c == '.' || c == '?' || c == '!'
  }

  /** The length of the longest run of whitespace starting at `q` (what greedy `\s+` takes). */
  function SpaceRun(s: string, q: nat): (n: nat)
    requires q <= |s|
    ensures q + n <= |s|
    ensures forall k :: q <= k < q + n ==> IsSpace(s[k])
    ensures q + n == |s| || !IsSpace(s[q + n])
    decreases |s| - q
  {
    if q < |s| && IsSpace(s[q]) then 1 + SpaceRun(s, q + 1) else 0
  }

  /**
   * The sticky matcher of `/\n|(?<=\.)\s+|(?<=\?)\s+|(?<=!)\s+/`.  The
   * alternatives are tried in order, so at a newline only that newline is
   * taken, even after a full stop; after `.`, `?` or `!` a whitespace run is
   * taken whole, newlines included, when it starts with another whitespace
   * character.
   */
  function LineBreakAt(s: string, q: nat): nat {
    if q >= |s| then 0
    else if s[q] == '\n' then 1
    else if 0 < q && IsSentenceEnd(s[q - 1]) && IsSpace(s[q]) then SpaceRun(s, q)
    else 0
  }

  /** `lines.filter(line => line.trim())`. */
  function KeepNonBlank(xs: seq<string>): (r: seq<string>)
    ensures |r| <= |xs|
  {
    if xs == [] then []
    else if IsBlank(xs[0]) then KeepNonBlank(xs[1..])
    else [xs[0]] + KeepNonBlank(xs[1..])
  }

  /** The filter keeps exactly the lines that are not whitespace-only. */
  lemma {:induction false} KeepNonBlankMembers(xs: seq<string>)
    ensures forall l :: l in KeepNonBlank(xs) <==> l in xs && !IsBlank(l)
  {
    if xs != [] {
      KeepNonBlankMembers(xs[1..]);
      assert xs == [xs[0]] + xs[1..];
    }
  }

  /** `text.split(/\n|(?<=\.)\s+|(?<=\?)\s+|(?<=!)\s+/).filter(line => line.trim())`. */
  function SplitLines(text: string): seq<string> {
    KeepNonBlank(Split(LineBreakAt, text))
  }

  /** A line with no newline and no `.`, `?` or `!` directly followed by whitespace. */
  predicate HasNoBreak(l: string) {
    && (forall k :: 0 <= k < |l| ==> l[k] != '\n')
    && (forall k :: 0 < k < |l| ==> !(IsSentenceEnd(l[k - 1]) && IsSpace(l[k])))
  }

  /** The pattern only ever matches whitespace. */
  lemma BreakIsBlank(s: string, q: nat)
    requires MatchesAt(LineBreakAt, s, q)
    ensures IsBlank(s[q..q + LineBreakAt(s, q)])
  {
  }

  /** No piece between two cuts contains a place where the pattern matches. */
  lemma {:induction false} PiecesHaveNoBreak(text: string)
    ensures var parts := SplitCapturing(LineBreakAt, text);
            forall i :: 0 <= i < |parts| && i % 2 == 0 ==> HasNoBreak(parts[i])
  {
    var r := Spans(LineBreakAt, text);
    SpansShape(LineBreakAt, text);
    var parts := SplitCapturing(LineBreakAt, text);
    assert parts == Slices(text, r);
    forall i | 0 <= i < |parts| && i % 2 == 0
      ensures HasNoBreak(parts[i])
    {
      PieceHasNoBreak(text, r, i);
    }
  }

  lemma PieceHasNoBreak(text: string, r: seq<Span>, i: nat)
    requires SplitShape(LineBreakAt, text, 0, r)
    requires i < |r| && i % 2 == 0
    ensures HasNoBreak(text[r[i].lo..r[i].hi])
  {
    var lo, hi := r[i].lo, r[i].hi;
    var piece := text[lo..hi];
    forall k | 0 <= k < |piece|
      ensures piece[k] != '\n'
    {
      assert !MatchesAt(LineBreakAt, text, lo + k);
    }
    forall k | 0 < k < |piece|
      ensures !(IsSentenceEnd(piece[k - 1]) && IsSpace(piece[k]))
    {
      assert !MatchesAt(LineBreakAt, text, lo + k);
      assert piece[k - 1] == text[lo + k - 1] && piece[k] == text[lo + k];
    }
  }

  /**
   * `cut` separates `before` from `after` as the pattern does: it is a
   * single newline, or a maximal whitespace run that starts with a
   * character other than a newline and follows a non-empty piece ending in
   * `.`, `?` or `!`.
   */
  predicate IsCut(before: string, cut: string, after: string) {
    || cut == "\n"
    || (&& cut != [] && IsBlank(cut) && cut[0] != '\n'
        && before != [] && IsSentenceEnd(before[|before| - 1])
        && (after == [] || !IsSpace(after[0])))
  }

  /** Every odd part of the split is a cut between its neighbours. */
  lemma CutsAreBreaks(text: string)
    ensures var parts := SplitCapturing(LineBreakAt, text);
            forall i :: 0 <= i < |parts| && i % 2 == 1 ==>
              i + 1 < |parts| && IsCut(parts[i - 1], parts[i], parts[i + 1])
  {
    var r := Spans(LineBreakAt, text);
    SpansShape(LineBreakAt, text);
    var parts := SplitCapturing(LineBreakAt, text);
    assert parts == Slices(text, r);
    forall i | 0 <= i < |parts| && i % 2 == 1
      ensures i + 1 < |parts| && IsCut(parts[i - 1], parts[i], parts[i + 1])
    {
      CutAt(text, r, i);
    }
  }

  lemma CutAt(text: string, r: seq<Span>, i: nat)
    requires SplitShape(LineBreakAt, text, 0, r)
    requires 0 <= i < |r| && i % 2 == 1
    ensures i + 1 < |r|
    ensures IsCut(Slices(text, r)[i - 1], Slices(text, r)[i], Slices(text, r)[i + 1])
  {
    BreakSpan(text, r, i);
    var pieceLo, lo, hi, nextHi := r[i - 1].lo, r[i].lo, r[i].hi, r[i + 1].hi;
    PieceFollowsBreak(text, r, i - 1);
    CutFromSpans(text, pieceLo, lo, hi, nextHi);
    var parts := Slices(text, r);
    assert parts[i - 1] == text[pieceLo..lo] && parts[i] == text[lo..hi] && parts[i + 1] == text[hi..nextHi];
  }

  /** An odd span of the split is a break, between the piece before it and the piece after it. */
  lemma BreakSpan(text: string, r: seq<Span>, i: nat)
    requires SplitShape(LineBreakAt, text, 0, r)
    requires i < |r| && i % 2 == 1
    ensures i + 1 < |r|
    ensures r[i - 1].lo <= r[i].lo <= r[i].hi <= r[i + 1].hi <= |text|
    ensures r[i - 1].hi == r[i].lo && r[i + 1].lo == r[i].hi
    ensures MatchesAt(LineBreakAt, text, r[i].lo) && r[i].hi == r[i].lo + LineBreakAt(text, r[i].lo)
  {
    assert |r| % 2 == 1;
  }

  /** A piece of the split starts the text or follows a break, whose last character is whitespace. */
  lemma PieceFollowsBreak(text: string, r: seq<Span>, j: nat)
    requires SplitShape(LineBreakAt, text, 0, r)
    requires j < |r| && j % 2 == 0
    ensures r[j].lo <= |text|
    ensures r[j].lo == 0 || IsSpace(text[r[j].lo - 1])
  {
    if j >= 2 {
      var prev := r[j - 1];
      assert (j - 1) % 2 == 1;
      assert MatchesAt(LineBreakAt, text, prev.lo) && prev.hi == prev.lo + LineBreakAt(text, prev.lo);
      BreakIsBlank(text, prev.lo);
      assert prev.hi == r[j].lo;
    }
  }

  lemma CutFromSpans(text: string, pieceLo: nat, lo: nat, hi: nat, nextHi: nat)
    requires pieceLo <= lo < hi <= nextHi <= |text|
    requires MatchesAt(LineBreakAt, text, lo) && hi == lo + LineBreakAt(text, lo)
    requires pieceLo == 0 || IsSpace(text[pieceLo - 1])
    ensures IsCut(text[pieceLo..lo], text[lo..hi], text[hi..nextHi])
  {
    if text[lo] != '\n' {
      assert 0 < lo && IsSentenceEnd(text[lo - 1]);
      assert pieceLo < lo;
      assert text[pieceLo..lo][lo - 1 - pieceLo] == text[lo - 1];
    }
  }

  /** Splitting into lines loses only whitespace: the visible characters are all kept, in order. */
  lemma LinesKeepVisibleText(text: string)
    ensures RemoveSpaces(Concat(SplitLines(text))) == RemoveSpaces(text)
  {
    var r := Spans(LineBreakAt, text);
    SpansShape(LineBreakAt, text);
    var parts := SplitCapturing(LineBreakAt, text);
    assert parts == Slices(text, r);
    forall i | 0 <= i < |parts| && i % 2 == 1
      ensures IsBlank(parts[i])
    {
      BreakIsBlank(text, r[i].lo);
    }
    EvensKeepVisible(parts);
    KeepNonBlankKeepsVisible(Evens(parts));
  }

  lemma {:induction false} KeepNonBlankKeepsVisible(xs: seq<string>)
    ensures RemoveSpaces(Concat(KeepNonBlank(xs))) == RemoveSpaces(Concat(xs))
  {
    if xs != [] {
      KeepNonBlankKeepsVisible(xs[1..]);
      RemoveSpacesAppend(xs[0], Concat(xs[1..]));
      if IsBlank(xs[0]) {
        RemoveSpacesOfBlank(xs[0]);
      } else {
        var rest := KeepNonBlank(xs[1..]);
        assert ([xs[0]] + rest)[1..] == rest;
        RemoveSpacesAppend(xs[0], Concat(rest));
      }
    }
  }

  /**
   * Every kept line has a non-whitespace character, no newline, and no
   * `.`, `?` or `!` directly followed by whitespace.
   */
  lemma LinesAreClean(text: string)
    ensures forall l :: l in SplitLines(text) ==> !IsBlank(l) && HasNoBreak(l)
  {
    var parts := SplitCapturing(LineBreakAt, text);
    PiecesHaveNoBreak(text);
    var pieces := Evens(parts);
    forall j | 0 <= j < |pieces|
      ensures HasNoBreak(pieces[j])
    {
      assert pieces[j] == parts[2 * j] && (2 * j) % 2 == 0;
    }
    KeepNonBlankMembers(pieces);
    assert SplitLines(text) == KeepNonBlank(pieces);
  }
}
