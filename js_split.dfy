/**
 * `String.prototype.split` with a regular expression, as the ECMAScript
 * algorithm (`RegExp.prototype[@@split]`) runs it: from the end of the last
 * match, try a sticky match at every index in turn; at the first index
 * where the pattern matches, cut there and resume scanning after the match.
 *
 * A pattern is represented by its sticky matcher: `m(s, q)` is the length
 * of the match that starts exactly at index `q` of the whole string `s`
 * (so a look-behind may inspect characters before `q`), or 0 when the
 * pattern does not match at `q`.  Both patterns of the application only
 * match non-empty text, which is what `MatchesAt` asks for.
 */
module JsSplit {
  import opened JsText

  type Matcher = (string, nat) -> nat

  /** The pattern matches a non-empty stretch of `s` that starts at `q`. */
  predicate MatchesAt(m: Matcher, s: string, q: nat) {
    q < |s| && 0 < m(s, q) <= |s| - q
  }

  /** The half-open index range `[lo, hi)` of a piece or of a match. */
  datatype Span = Span(lo: nat, hi: nat)

  /**
   * What `split` produces from a piece that started at `p`: pieces at even
   * positions and matches at odd positions, covering `[p, |s|)` without
   * gaps.  Every match starts at the first index where the pattern matches,
   * so no index inside a piece is the start of a match.
   */
  ghost predicate SplitShape(m: Matcher, s: string, p: nat, r: seq<Span>) {
    && |r| % 2 == 1
    && r[0].lo == p && r[|r| - 1].hi == |s|
    && (forall i :: 0 <= i < |r| ==> r[i].lo <= r[i].hi <= |s|)
    && (forall i :: 0 < i < |r| ==> r[i - 1].hi == r[i].lo)
    && (forall i :: 0 <= i < |r| && i % 2 == 1 ==>
          MatchesAt(m, s, r[i].lo) && r[i].hi == r[i].lo + m(s, r[i].lo))
    && (forall i, k :: 0 <= i < |r| && i % 2 == 0 && r[i].lo <= k < r[i].hi ==>
          !MatchesAt(m, s, k))
  }

  /** The spans `split` produces from scan position `q`, the current piece having started at `p`. */
  function Scan(m: Matcher, s: string, p: nat, q: nat): seq<Span>
    requires p <= q <= |s|
    decreases |s| - q
  {
    if q == |s| then [Span(p, |s|)]
    else if MatchesAt(m, s, q) then
      var e := q + m(s, q);
      [Span(p, q), Span(q, e)] + Scan(m, s, e, e)
    else Scan(m, s, p, q + 1)
  }

  /** The scan starting at `q` cuts exactly where the pattern first matches. */
  lemma {:induction false} ScanShape(m: Matcher, s: string, p: nat, q: nat)
    requires p <= q <= |s|
    requires forall k :: p <= k < q ==> !MatchesAt(m, s, k)
    ensures SplitShape(m, s, p, Scan(m, s, p, q))
    decreases |s| - q
  {
    if q < |s| {
      if MatchesAt(m, s, q) {
        var e := q + m(s, q);
        ScanShape(m, s, e, e);
        ScanMatchStep(m, s, p, q, Scan(m, s, e, e));
      } else {
        ScanShape(m, s, p, q + 1);
      }
    }
  }

  lemma ScanMatchStep(m: Matcher, s: string, p: nat, q: nat, rest: seq<Span>)
    requires p <= q < |s| && MatchesAt(m, s, q)
    requires forall k :: p <= k < q ==> !MatchesAt(m, s, k)
    requires SplitShape(m, s, q + m(s, q), rest)
    ensures SplitShape(m, s, p, [Span(p, q), Span(q, q + m(s, q))] + rest)
  {
    var r := [Span(p, q), Span(q, q + m(s, q))] + rest;
    assert r[|r| - 1] == rest[|rest| - 1];
    PrependedSpansTile(m, s, p, q, rest);
    PrependedSpansMatch(m, s, p, q, rest);
  }

  /** Prepending a piece and a match keeps the spans in bounds and end to end. */
  lemma PrependedSpansTile(m: Matcher, s: string, p: nat, q: nat, rest: seq<Span>)
    requires p <= q < |s| && MatchesAt(m, s, q)
    requires SplitShape(m, s, q + m(s, q), rest)
    ensures var r := [Span(p, q), Span(q, q + m(s, q))] + rest;
            && (forall i :: 0 <= i < |r| ==> r[i].lo <= r[i].hi <= |s|)
            && (forall i :: 0 < i < |r| ==> r[i - 1].hi == r[i].lo)
  {
    var r := [Span(p, q), Span(q, q + m(s, q))] + rest;
    forall i | 0 < i < |r|
      ensures r[i - 1].hi == r[i].lo
    {
      if i >= 3 {
        assert r[i - 1] == rest[i - 3] && r[i] == rest[i - 2];
      }
    }
  }

  /** Prepending a piece and a match keeps odd spans on matches and even spans free of them. */
  lemma PrependedSpansMatch(m: Matcher, s: string, p: nat, q: nat, rest: seq<Span>)
    requires p <= q < |s| && MatchesAt(m, s, q)
    requires forall k :: p <= k < q ==> !MatchesAt(m, s, k)
    requires SplitShape(m, s, q + m(s, q), rest)
    ensures var r := [Span(p, q), Span(q, q + m(s, q))] + rest;
            && (forall i :: 0 <= i < |r| && i % 2 == 1 ==>
                  MatchesAt(m, s, r[i].lo) && r[i].hi == r[i].lo + m(s, r[i].lo))
            && (forall i, k :: 0 <= i < |r| && i % 2 == 0 && r[i].lo <= k < r[i].hi ==>
                  !MatchesAt(m, s, k))
  {
    var r := [Span(p, q), Span(q, q + m(s, q))] + rest;
    forall i | 2 <= i < |r|
      ensures r[i] == rest[i - 2] && i % 2 == (i - 2) % 2
    {
    }
  }

  /** The spans of the whole string. */
  function Spans(m: Matcher, s: string): seq<Span> {
    Scan(m, s, 0, 0)
  }

  lemma SpansShape(m: Matcher, s: string)
    ensures SplitShape(m, s, 0, Spans(m, s))
  {
    ScanShape(m, s, 0, 0);
  }

  /** The text of each span. */
  function Slices(s: string, r: seq<Span>): (parts: seq<string>)
    requires forall i :: 0 <= i < |r| ==> r[i].lo <= r[i].hi <= |s|
  {
    seq(|r|, i requires 0 <= i < |r| => s[r[i].lo..r[i].hi])
  }

  /**
   * `s.split(/(pattern)/)`: with one capturing group around the whole
   * pattern, the result alternates pieces and matched text.  Putting the
   * parts back together gives `s`.
   */
  function SplitCapturing(m: Matcher, s: string): (parts: seq<string>)
    ensures |parts| % 2 == 1
    ensures Concat(parts) == s
  {
    var r := Spans(m, s);
    SpansShape(m, s);
    ConcatSlices(s, r, 0);
    Slices(s, r)
  }

  lemma {:induction false} ConcatSlices(s: string, r: seq<Span>, j: nat)
    requires |r| > 0 && r[|r| - 1].hi == |s|
    requires forall i :: 0 <= i < |r| ==> r[i].lo <= r[i].hi <= |s|
    requires forall i :: 0 < i < |r| ==> r[i - 1].hi == r[i].lo
    requires j < |r|
    ensures Concat(Slices(s, r)[j..]) == s[r[j].lo..]
    decreases |r| - j
  {
    var parts := Slices(s, r);
    assert parts[j..][0] == parts[j];
    if j == |r| - 1 {
      assert parts[j..][1..] == [];
    } else {
      assert parts[j..][1..] == parts[j + 1..];
      ConcatSlices(s, r, j + 1);
      assert s[r[j].lo..] == s[r[j].lo..r[j].hi] + s[r[j + 1].lo..];
    }
  }

  /** The elements at even positions: 0, 2, 4, ... */
  function Evens(xs: seq<string>): (r: seq<string>)
    ensures |r| == (|xs| + 1) / 2
    ensures forall i :: 0 <= i < |r| ==> r[i] == xs[2 * i]
  {
    if |xs| <= 1 then xs else [xs[0]] + Evens(xs[2..])
  }

  /** `s.split(/pattern/)`: without a capturing group only the pieces are returned. */
  function Split(m: Matcher, s: string): seq<string> {
    Evens(SplitCapturing(m, s))
  }

  /** When the dropped elements are all whitespace, dropping them loses no visible character. */
  lemma {:induction false} EvensKeepVisible(xs: seq<string>)
    requires forall i :: 0 <= i < |xs| && i % 2 == 1 ==> IsBlank(xs[i])
    ensures RemoveSpaces(Concat(Evens(xs))) == RemoveSpaces(Concat(xs))
  {
    if |xs| > 1 {
      var tail := xs[2..];
      assert forall i :: 0 <= i < |tail| && i % 2 == 1 ==> tail[i] == xs[i + 2] && (i + 2) % 2 == 1;
      EvensKeepVisible(tail);
      assert xs[1..][1..] == tail;
      assert ([xs[0]] + Evens(tail))[1..] == Evens(tail);
      RemoveSpacesAppend(xs[0], Concat(Evens(tail)));
      RemoveSpacesAppend(xs[0], xs[1] + Concat(tail));
      RemoveSpacesAppend(xs[1], Concat(tail));
      RemoveSpacesOfBlank(xs[1]);
    }
  }
}
