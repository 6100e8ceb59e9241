/**
 * The toolbar of `PDFViewer`: previous/next page through `onPageChange`
 * (the page's own `setCurrentPage`), and zoom in steps of 0.25 between 0.5
 * and 3.  A scale is kept as a whole number of quarters, so 1.0 is 4,
 * 0.5 is 2 and 3 is 12; every scale the toolbar can reach is a multiple of
 * 0.25 and exact in floating point.
 */
module PdfViewer {
  import opened JsText

  const MinQuarters := 2
  const MaxQuarters := 12
  /** `useState(1.0)`. */
  const InitialQuarters := 4

  /** The page `goToPreviousPage` moves to from page `p`. */
  function PrevPage(p: int): (r: int)
    ensures r == p - 1 || r == p
    ensures r == p <==> p <= 1
    ensures p >= 1 ==> r >= 1
  {
    if p > 1 then p - 1 else p
  }

  /** The page `goToNextPage` moves to from page `p` of `totalPages`. */
  function NextPage(p: int, totalPages: int): (r: int)
    ensures r == p + 1 || r == p
    ensures r == p <==> p >= totalPages
    ensures p <= totalPages ==> r <= totalPages
  {
    if p < totalPages then p + 1 else p
  }

  /** `s => Math.min(s + 0.25, 3)`, in quarters. */
  function ZoomInStep(q: int): (r: int)
    ensures r <= MaxQuarters
    ensures q < MaxQuarters ==> r == q + 1
    ensures MinQuarters <= q ==> MinQuarters <= r
  {
    if q + 1 < MaxQuarters then q + 1 else MaxQuarters
  }

  /** `s => Math.max(s - 0.25, 0.5)`, in quarters. */
  function ZoomOutStep(q: int): (r: int)
    ensures r >= MinQuarters
    ensures q > MinQuarters ==> r == q - 1
    ensures q <= MaxQuarters ==> r <= MaxQuarters
  {
    if q - 1 > MinQuarters then q - 1 else MinQuarters
  }

  /** Going back one page and forward again returns to the page. */
  lemma PrevThenNext(p: int, totalPages: int)
    requires 1 < p <= totalPages
    ensures NextPage(PrevPage(p), totalPages) == p
  {
  }

  /** Going forward one page and back again returns to the page. */
  lemma NextThenPrev(p: int, totalPages: int)
    requires 1 <= p < totalPages
    ensures PrevPage(NextPage(p, totalPages)) == p
  {
  }

  /** Zooming in and out again restores the scale unless zooming in hit the cap. */
  lemma ZoomInThenOut(q: int)
    requires MinQuarters <= q < MaxQuarters
    ensures ZoomOutStep(ZoomInStep(q)) == q
  {
  }

  /** Zooming out and in again restores the scale unless zooming out hit the floor. */
  lemma ZoomOutThenIn(q: int)
    requires MinQuarters < q <= MaxQuarters
    ensures ZoomInStep(ZoomOutStep(q)) == q
  {
  }

  /**
   * The label `Math.round(scale * 100)`: with the scale a whole number of
   * quarters, it is exactly 25 per quarter.
   */
  function ScaleLabel(q: int): (percent: int)
    ensures percent == 25 * q
  {
    RoundRatio(q * 100, 4)
  }

  class Viewer {
    /** The `currentPage` and `totalPages` props. */
    var currentPage: int
    var totalPages: int
    /** The `scale` state, in quarters. */
    var quarters: int

    ghost predicate Valid()
      reads this
    {
      MinQuarters <= quarters <= MaxQuarters
    }

    constructor (currentPage: int, totalPages: int)
      ensures Valid()
      ensures this.currentPage == currentPage && this.totalPages == totalPages
      ensures quarters == InitialQuarters
    {
      this.currentPage := currentPage;
      this.totalPages := totalPages;
      quarters := InitialQuarters;
    }

    /** `disabled={currentPage <= 1}`. */
    predicate PreviousDisabled()
      reads this
    {
      currentPage <= 1
    }

    /** `disabled={currentPage >= totalPages}`. */
    predicate NextDisabled()
      reads this
    {
      currentPage >= totalPages
    }

    /** `disabled={scale <= 0.5}`. */
    predicate ZoomOutDisabled()
      reads this
    {
      quarters <= MinQuarters
    }

    /** `disabled={scale >= 3}`. */
    predicate ZoomInDisabled()
      reads this
    {
      quarters >= MaxQuarters
    }

    /** `goToPreviousPage`: asks for the page before, unless this is page 1. */
    method GoToPreviousPage()
      modifies this
      ensures currentPage == PrevPage(old(currentPage))
      ensures totalPages == old(totalPages) && quarters == old(quarters)
    {
      if currentPage > 1 {
        currentPage := currentPage - 1;
      }
    }

    /** `goToNextPage`: asks for the page after, unless this is the last page. */
    method GoToNextPage()
      modifies this
      ensures currentPage == NextPage(old(currentPage), old(totalPages))
      ensures totalPages == old(totalPages) && quarters == old(quarters)
    {
      if currentPage < totalPages {
        currentPage := currentPage + 1;
      }
    }

    /** `zoomIn`. */
    method ZoomIn()
      requires Valid()
      modifies this
      ensures Valid()
      ensures quarters == ZoomInStep(old(quarters))
      ensures currentPage == old(currentPage) && totalPages == old(totalPages)
    {
      quarters := ZoomInStep(quarters);
    }

    /** `zoomOut`. */
    method ZoomOut()
      requires Valid()
      modifies this
      ensures Valid()
      ensures quarters == ZoomOutStep(old(quarters))
      ensures currentPage == old(currentPage) && totalPages == old(totalPages)
    {
      quarters := ZoomOutStep(quarters);
    }
  }

  /**
   * Each button is disabled exactly when pressing it would change nothing
   * (for the zoom buttons, on every scale the toolbar can reach).
   */
  lemma DisabledIffNoEffect(v: Viewer)
    requires v.Valid()
    ensures v.PreviousDisabled() <==> PrevPage(v.currentPage) == v.currentPage
    ensures v.NextDisabled() <==> NextPage(v.currentPage, v.totalPages) == v.currentPage
    ensures v.ZoomOutDisabled() <==> ZoomOutStep(v.quarters) == v.quarters
    ensures v.ZoomInDisabled() <==> ZoomInStep(v.quarters) == v.quarters
  {
  }
}
