/**
 * `ExportButton.handleExport`: the selected search results are matched by
 * their list keys, their page numbers are grouped per document (in `Map`
 * insertion order, de-duplicated by a `Set`), each group is sorted
 * ascending, and page n of every known document is copied from its page
 * index n - 1 into one merged PDF.  pdf-lib is reduced to what it answers:
 * the page count of a stored file once loaded (or a rejection), and
 * whether saving the merged document succeeds.
 */
module Export {
  import opened JsText
  import opened PdfTypes

  /** `SearchResult` as declared, carrying the document it came from. */
  datatype DocumentResult = DocumentResult(
    documentId: string, documentName: string, pageNumber: int,
    lineNumber: int, lineText: string, matchIndex: int)

  /**
   * `PDFDocument` as far as the export uses it: its `id`, and the page count
   * `PDFLibDocument.load` finds in its file (None when reading or loading
   * the file rejects).
   */
  datatype StoredDocument = StoredDocument(id: string, name: string, loadedPageCount: Option<nat>)

  /** One entry of `selectedByDoc`: a document id and its page numbers in `Set` insertion order. */
  datatype Group = Group(documentId: string, pages: seq<int>)

  /** One `copyPages(sourcePdf, [index])`: the document (by position in `documents`) and the page index. */
  datatype Copy = Copy(document: nat, pageIndex: int)

  /** What the handler ends with: the empty-selection error, the failure toast, or a saved merge. */
  datatype Outcome = NothingSelected | ExportFailed | Exported(copies: seq<Copy>)

  // ---------------------------------------------------------------------
  // Result keys
  // ---------------------------------------------------------------------

  /** `${i}` for an integer. */
  function IntToString(i: int): string {
    if i < 0 then "-" + NatToString(-i) else NatToString(i)
  }

  /** The key of the result at position `index`: `${documentId}-${pageNumber}-${lineNumber}-${index}`. */
  function ResultKey(r: DocumentResult, index: nat): string {
    r.documentId + "-" + IntToString(r.pageNumber) + "-" + IntToString(r.lineNumber) + "-" + NatToString(index)
  }

  function IsDigit(c: char): bool {
    '0' <= c <= '9'
  }

  /** The length of the run of digits that ends `s`. */
  function TrailingDigits(s: string): (n: nat)
    ensures n <= |s|
  {
    if s == [] || !IsDigit(s[|s| - 1]) then 0 else 1 + TrailingDigits(s[..|s| - 1])
  }

  /** After a `-`, a run of digits is exactly the trailing digit run. */
  lemma {:induction false} TrailingDigitsAfterDash(p: string, a: string)
    requires forall i :: 0 <= i < |a| ==> IsDigit(a[i])
    ensures TrailingDigits(p + "-" + a) == |a|
  {
    var s := p + "-" + a;
    if a == [] {
      assert s[|s| - 1] == '-';
    } else {
      assert s[..|s| - 1] == p + "-" + a[..|a| - 1];
      TrailingDigitsAfterDash(p, a[..|a| - 1]);
    }
  }

  /** Two strings ending in `-` and a run of digits agree on that run when they are equal. */
  lemma DigitTailsAgree(p: string, a: string, q: string, b: string)
    requires forall i :: 0 <= i < |a| ==> IsDigit(a[i])
    requires forall i :: 0 <= i < |b| ==> IsDigit(b[i])
    requires p + "-" + a == q + "-" + b
    ensures a == b
  {
    var s := p + "-" + a;
    TrailingDigitsAfterDash(p, a);
    TrailingDigitsAfterDash(q, b);
    assert a == s[|s| - |a|..];
    assert b == s[|s| - |b|..];
  }

  /**
   * A key names a single position: document ids may contain `-` and page or
   * line numbers may be negative, but the index after the last `-` always
   * reads back, so two results at different positions never share a key.
   */
  lemma KeyDeterminesIndex(r1: DocumentResult, i: nat, r2: DocumentResult, j: nat)
    requires ResultKey(r1, i) == ResultKey(r2, j)
    ensures i == j
  {
    var p := r1.documentId + "-" + IntToString(r1.pageNumber) + "-" + IntToString(r1.lineNumber);
    var q := r2.documentId + "-" + IntToString(r2.pageNumber) + "-" + IntToString(r2.lineNumber);
    NatToStringDigits(i);
    NatToStringDigits(j);
    DigitTailsAgree(p, NatToString(i), q, NatToString(j));
    NatToStringInjective(i, j);
  }

  // ---------------------------------------------------------------------
  // Grouping by document (the `forEach` over the results)
  // ---------------------------------------------------------------------

  /** `Set.prototype.add` on a set kept in insertion order. */
  function AddPage(pages: seq<int>, p: int): seq<int> {
    if p in pages then pages else pages + [p]
  }

  /**
   * The first position at or after `start` whose id is `id`, or `|ids|`.
   * Both lookups by id, `Map.prototype.get` on the groups and
   * `documents.find` on the documents, are this search over their ids.
   */
  function FirstIdFrom(ids: seq<string>, id: string, start: nat): (k: nat)
    requires start <= |ids|
    ensures start <= k <= |ids|
    ensures k < |ids| ==> ids[k] == id
    ensures forall j :: start <= j < k ==> ids[j] != id
    decreases |ids| - start
  {
    if start == |ids| then start
    else if ids[start] == id then start
    else FirstIdFrom(ids, id, start + 1)
  }

  /** `Map.prototype.get`: the position of the entry for `id`, or `|groups|` when `has` is false. */
  function GroupIndex(groups: seq<Group>, id: string): (k: nat)
    ensures k <= |groups|
    ensures k < |groups| ==> groups[k].documentId == id
    ensures forall j :: 0 <= j < k ==> groups[j].documentId != id
  {
    var ids := seq(|groups|, i requires 0 <= i < |groups| => groups[i].documentId);
    assert forall j :: 0 <= j < |groups| ==> ids[j] == groups[j].documentId;
    FirstIdFrom(ids, id, 0)
  }

  /** Adding a selected result: its page joins its document's entry, which is created at the end when new. */
  function AddResult(groups: seq<Group>, r: DocumentResult): seq<Group> {
    var k := GroupIndex(groups, r.documentId);
    if k < |groups| then groups[k := Group(r.documentId, AddPage(groups[k].pages, r.pageNumber))]
    else groups + [Group(r.documentId, [r.pageNumber])]
  }

  /** `selectedResults.has(key)` for the result at each position. */
  function Marks(selected: set<string>, results: seq<DocumentResult>): (marks: seq<bool>)
    ensures |marks| == |results|
  {
    seq(|results|, i requires 0 <= i < |results| => ResultKey(results[i], i) in selected)
  }

  /** `selectedByDoc` once the first `n` results have been visited. */
  function Grouped(marks: seq<bool>, results: seq<DocumentResult>, n: nat): seq<Group>
    requires |marks| == |results| && n <= |results|
  {
    if n == 0 then []
    else if marks[n - 1] then AddResult(Grouped(marks, results, n - 1), results[n - 1])
    else Grouped(marks, results, n - 1)
  }

  /** The position of the first selected result of document `d` among the first `n`, or `n` if there is none. */
  function FirstSelected(marks: seq<bool>, results: seq<DocumentResult>, n: nat, d: string): (f: nat)
    requires |marks| == |results| && n <= |results|
    ensures f <= n
  {
    if n == 0 then 0
    else if FirstSelected(marks, results, n - 1, d) < n - 1 then FirstSelected(marks, results, n - 1, d)
    else if marks[n - 1] && results[n - 1].documentId == d then n - 1
    else n
  }

  /** Some selected result among the first `n` belongs to document `d` and is on page `p`. */
  ghost predicate PageSelected(marks: seq<bool>, results: seq<DocumentResult>, n: nat, d: string, p: int)
    requires |marks| == |results| && n <= |results|
  {
    exists i :: 0 <= i < n && marks[i] && results[i].documentId == d && results[i].pageNumber == p
  }

  ghost predicate NoDuplicates(xs: seq<int>) {
    forall i, j :: 0 <= i < j < |xs| ==> xs[i] != xs[j]
  }

  /** `FirstSelected` is the first selected position of the document, when there is one. */
  lemma {:induction false} FirstSelectedIsFirst(marks: seq<bool>, results: seq<DocumentResult>, n: nat, d: string)
    requires |marks| == |results| && n <= |results|
    ensures forall i :: 0 <= i < n && marks[i] && results[i].documentId == d ==>
      FirstSelected(marks, results, n, d) <= i
    ensures FirstSelected(marks, results, n, d) < n ==>
      marks[FirstSelected(marks, results, n, d)] &&
      results[FirstSelected(marks, results, n, d)].documentId == d
  {
    if n > 0 {
      FirstSelectedIsFirst(marks, results, n - 1, d);
    }
  }

  lemma PageSelectedStep(marks: seq<bool>, results: seq<DocumentResult>, n: nat, d: string, p: int)
    requires |marks| == |results| && 0 < n <= |results|
    ensures PageSelected(marks, results, n, d, p) <==>
      PageSelected(marks, results, n - 1, d, p) ||
      (marks[n - 1] && results[n - 1].documentId == d && results[n - 1].pageNumber == p)
  {
    if PageSelected(marks, results, n, d, p) {
      var i :| 0 <= i < n && marks[i] && results[i].documentId == d && results[i].pageNumber == p;
      if i < n - 1 {
        assert PageSelected(marks, results, n - 1, d, p);
      }
    }
  }

  /** The map's keys: every document id appears once, and exactly the documents with a selected result appear. */
  lemma {:induction false} GroupedDocuments(marks: seq<bool>, results: seq<DocumentResult>, n: nat)
    requires |marks| == |results| && n <= |results|
    ensures forall k, l :: 0 <= k < l < |Grouped(marks, results, n)| ==>
      Grouped(marks, results, n)[k].documentId != Grouped(marks, results, n)[l].documentId
    ensures forall k :: 0 <= k < |Grouped(marks, results, n)| ==>
      FirstSelected(marks, results, n, Grouped(marks, results, n)[k].documentId) < n
    ensures forall d :: FirstSelected(marks, results, n, d) < n ==>
      GroupIndex(Grouped(marks, results, n), d) < |Grouped(marks, results, n)|
  {
    if n > 0 {
      GroupedDocuments(marks, results, n - 1);
      var before := Grouped(marks, results, n - 1);
      var r := results[n - 1];
      if marks[n - 1] {
        var k0 := GroupIndex(before, r.documentId);
        var after := Grouped(marks, results, n);
        if k0 < |before| {
          assert after == before[k0 := Group(r.documentId, AddPage(before[k0].pages, r.pageNumber))];
          assert forall k :: 0 <= k < |after| ==> after[k].documentId == before[k].documentId;
          forall d | FirstSelected(marks, results, n, d) < n
            ensures GroupIndex(after, d) < |after|
          {
            assert before[k0].documentId == r.documentId;
            assert FirstSelected(marks, results, n - 1, d) < n - 1;
            var kb := GroupIndex(before, d);
            assert after[kb].documentId == d;
            assert GroupIndex(after, d) <= kb;
          }
        } else {
          assert after == before + [Group(r.documentId, [r.pageNumber])];
          assert FirstSelected(marks, results, n - 1, r.documentId) == n - 1;
          forall d | FirstSelected(marks, results, n, d) < n
            ensures GroupIndex(after, d) < |after|
          {
            if d != r.documentId {
              assert FirstSelected(marks, results, n - 1, d) < n - 1;
              var kb := GroupIndex(before, d);
              assert after[kb].documentId == d;
              assert GroupIndex(after, d) <= kb;
            } else {
              assert after[|before|].documentId == d;
              assert GroupIndex(after, d) <= |before|;
            }
          }
        }
      }
    }
  }

  /** The map's keys come in the order of each document's first selected result (insertion order). */
  lemma {:induction false} GroupedOrder(marks: seq<bool>, results: seq<DocumentResult>, n: nat)
    requires |marks| == |results| && n <= |results|
    ensures forall k, l :: 0 <= k < l < |Grouped(marks, results, n)| ==>
      FirstSelected(marks, results, n, Grouped(marks, results, n)[k].documentId) <
      FirstSelected(marks, results, n, Grouped(marks, results, n)[l].documentId)
  {
    if n > 0 {
      GroupedOrder(marks, results, n - 1);
      GroupedDocuments(marks, results, n - 1);
      var before := Grouped(marks, results, n - 1);
      var after := Grouped(marks, results, n);
      var r := results[n - 1];
      var isNew := marks[n - 1] && GroupIndex(before, r.documentId) == |before|;
      if isNew {
        assert after == before + [Group(r.documentId, [r.pageNumber])];
      } else if marks[n - 1] {
        AddResultKeepsIds(before, r);
      }
      forall k, l | 0 <= k < l < |after|
        ensures FirstSelected(marks, results, n, after[k].documentId) < FirstSelected(marks, results, n, after[l].documentId)
      {
        assert after[k].documentId == before[k].documentId;
        FirstSelectedStable(marks, results, n, before[k].documentId);
        if l < |before| {
          assert after[l].documentId == before[l].documentId;
          FirstSelectedStable(marks, results, n, before[l].documentId);
        } else {
          assert after[l].documentId == r.documentId;
          assert FirstSelected(marks, results, n, r.documentId) == n - 1;
        }
      }
    }
  }

  /** A document already selected among the first `n - 1` results keeps its first selection. */
  lemma FirstSelectedStable(marks: seq<bool>, results: seq<DocumentResult>, n: nat, d: string)
    requires |marks| == |results| && 0 < n <= |results|
    requires FirstSelected(marks, results, n - 1, d) < n - 1
    ensures FirstSelected(marks, results, n, d) == FirstSelected(marks, results, n - 1, d)
  {
  }

  /** Adding a result of a document that already has an entry changes no entry's document. */
  lemma AddResultKeepsIds(groups: seq<Group>, r: DocumentResult)
    requires GroupIndex(groups, r.documentId) < |groups|
    ensures |AddResult(groups, r)| == |groups|
    ensures forall k :: 0 <= k < |groups| ==> AddResult(groups, r)[k].documentId == groups[k].documentId
  {
  }

  /**
   * The map's values: each document's page set holds no duplicate and holds
   * exactly the page numbers of that document's selected results.
   */
  lemma {:induction false} GroupedPages(marks: seq<bool>, results: seq<DocumentResult>, n: nat)
    requires |marks| == |results| && n <= |results|
    ensures forall k :: 0 <= k < |Grouped(marks, results, n)| ==> NoDuplicates(Grouped(marks, results, n)[k].pages)
    ensures forall k, p :: 0 <= k < |Grouped(marks, results, n)| ==>
      (p in Grouped(marks, results, n)[k].pages <==>
       PageSelected(marks, results, n, Grouped(marks, results, n)[k].documentId, p))
  {
    if n > 0 {
      GroupedPages(marks, results, n - 1);
      GroupedDocuments(marks, results, n - 1);
      var before := Grouped(marks, results, n - 1);
      var after := Grouped(marks, results, n);
      var r := results[n - 1];
      forall k, p | 0 <= k < |after|
        ensures p in after[k].pages <==> PageSelected(marks, results, n, after[k].documentId, p)
      {
        PageSelectedStep(marks, results, n, after[k].documentId, p);
        if marks[n - 1] && GroupIndex(before, r.documentId) == |before| && k == |before| {
          FirstSelectedIsFirst(marks, results, n - 1, r.documentId);
          forall i | 0 <= i < n - 1 && marks[i]
            ensures results[i].documentId != r.documentId
          {
          }
          assert !PageSelected(marks, results, n - 1, r.documentId, p);
        }
      }
    }
  }

  /** The `forEach` that fills `selectedByDoc`. */
  method GroupSelected(selected: set<string>, results: seq<DocumentResult>) returns (groups: seq<Group>)
    ensures groups == Grouped(Marks(selected, results), results, |results|)
  {
    ghost var marks := Marks(selected, results);
    groups := [];
    var index := 0;
    while index < |results|
      invariant 0 <= index <= |results|
      invariant groups == Grouped(marks, results, index)
    {
      var result := results[index];
      if ResultKey(result, index) in selected {
        assert Grouped(marks, results, index + 1) == AddResult(groups, result) by {
          assert marks[index];
        }
        var k := GroupIndex(groups, result.documentId);
        if k == |groups| {
          groups := groups + [Group(result.documentId, [result.pageNumber])];
        } else {
          groups := groups[k := Group(result.documentId, AddPage(groups[k].pages, result.pageNumber))];
        }
      } else {
        assert Grouped(marks, results, index + 1) == groups by {
          assert !marks[index];
        }
      }
      index := index + 1;
    }
  }

  // ---------------------------------------------------------------------
  // Sorting a page set (`Array.from(pageNumbers).sort((a, b) => a - b)`)
  // ---------------------------------------------------------------------

  ghost predicate StrictlyAscending(xs: seq<int>) {
    forall i, j :: 0 <= i < j < |xs| ==> xs[i] < xs[j]
  }

  function Insert(x: int, xs: seq<int>): (r: seq<int>)
    ensures |r| == |xs| + 1
  {
    if xs == [] then [x]
    else if x <= xs[0] then [x] + xs
    else [xs[0]] + Insert(x, xs[1..])
  }

  /** The pages in ascending numeric order. */
  function SortAscending(xs: seq<int>): (r: seq<int>)
    ensures |r| == |xs|
  {
    if xs == [] then [] else Insert(xs[0], SortAscending(xs[1..]))
  }

  lemma {:induction false} InsertMembers(x: int, xs: seq<int>)
    ensures forall p :: p in Insert(x, xs) <==> p == x || p in xs
  {
    if xs != [] && x > xs[0] {
      InsertMembers(x, xs[1..]);
      assert xs == [xs[0]] + xs[1..];
    }
  }

  lemma {:induction false} InsertAscending(x: int, xs: seq<int>)
    requires StrictlyAscending(xs) && x !in xs
    ensures StrictlyAscending(Insert(x, xs))
  {
    if xs != [] && x > xs[0] {
      InsertAscending(x, xs[1..]);
      InsertMembers(x, xs[1..]);
      var r := Insert(x, xs);
      var tail := Insert(x, xs[1..]);
      assert r == [xs[0]] + tail;
      forall j | 1 <= j < |r|
        ensures xs[0] < r[j]
      {
        assert r[j] == tail[j - 1];
        assert tail[j - 1] in tail;
      }
    }
  }

  lemma {:induction false} SortMembers(xs: seq<int>)
    ensures forall p :: p in SortAscending(xs) <==> p in xs
  {
    if xs != [] {
      SortMembers(xs[1..]);
      InsertMembers(xs[0], SortAscending(xs[1..]));
      assert xs == [xs[0]] + xs[1..];
    }
  }

  /**
   * Sorting a page set gives the same pages, strictly ascending: `Set`
   * already removed every duplicate, so the order is total.
   */
  lemma {:induction false} SortedPages(xs: seq<int>)
    requires NoDuplicates(xs)
    ensures StrictlyAscending(SortAscending(xs))
    ensures forall p :: p in SortAscending(xs) <==> p in xs
  {
    SortMembers(xs);
    if xs != [] {
      assert NoDuplicates(xs[1..]);
      SortedPages(xs[1..]);
      assert xs[0] !in xs[1..];
      InsertAscending(xs[0], SortAscending(xs[1..]));
    }
  }

  // ---------------------------------------------------------------------
  // The merged document
  // ---------------------------------------------------------------------

  /** `documents.find(d => d.id === docId)`: the first document with the id, or `|documents|`. */
  function FindDocument(documents: seq<StoredDocument>, id: string): (k: nat)
    ensures k <= |documents|
    ensures k < |documents| ==> documents[k].id == id
    ensures forall j :: 0 <= j < k ==> documents[j].id != id
  {
    var ids := seq(|documents|, i requires 0 <= i < |documents| => documents[i].id);
    assert forall j :: 0 <= j < |documents| ==> ids[j] == documents[j].id;
    FirstIdFrom(ids, id, 0)
  }

  /**
   * Copying `pages` of a loaded document in order: page n comes from page
   * index n - 1, and `copyPages` rejects when that index is not a page of
   * the document.
   */
  function PageCopies(doc: nat, pages: seq<int>, pageCount: nat): Option<seq<Copy>> {
    if forall p :: p in pages ==> 1 <= p <= pageCount
    then Some(seq(|pages|, i requires 0 <= i < |pages| => Copy(doc, pages[i] - 1)))
    else None
  }

  /** One turn of the `for ... of selectedByDoc` loop: skipped when the id is unknown. */
  function GroupCopies(group: Group, documents: seq<StoredDocument>): Option<seq<Copy>> {
    var k := FindDocument(documents, group.documentId);
    if k == |documents| then Some([])
    else match documents[k].loadedPageCount
      case None => None
      case Some(count) => PageCopies(k, SortAscending(group.pages), count)
  }

  /** Every copy of the merge, group after group; None as soon as one group rejects. */
  function CopyPlan(groups: seq<Group>, documents: seq<StoredDocument>): Option<seq<Copy>> {
    if groups == [] then Some([])
    else match CopyPlan(groups[..|groups| - 1], documents)
      case None => None
      case Some(before) =>
        match GroupCopies(groups[|groups| - 1], documents)
        case None => None
        case Some(copies) => Some(before + copies)
  }

  /** The number of selected pages whose document is known. */
  function KeptPageCount(groups: seq<Group>, documents: seq<StoredDocument>): nat {
    if groups == [] then 0
    else
      var last := groups[|groups| - 1];
      var kept := if FindDocument(documents, last.documentId) < |documents| then |last.pages| else 0;
      KeptPageCount(groups[..|groups| - 1], documents) + kept
  }

  /** The whole handler, as a value. */
  function ExportOutcome(selected: set<string>, results: seq<DocumentResult>, documents: seq<StoredDocument>, saved: bool): (o: Outcome)
    ensures o.NothingSelected? <==> |selected| == 0
  {
    if |selected| == 0 then NothingSelected
    else match CopyPlan(Grouped(Marks(selected, results), results, |results|), documents)
      case None => ExportFailed
      case Some(copies) => if saved then Exported(copies) else ExportFailed
  }

  /** Once a group rejects, the whole merge rejects. */
  lemma {:induction false} CopyPlanPrefixFails(groups: seq<Group>, documents: seq<StoredDocument>, m: nat)
    requires m <= |groups|
    requires CopyPlan(groups[..m], documents) == None
    ensures CopyPlan(groups, documents) == None
    decreases |groups| - m
  {
    if m < |groups| {
      assert groups[..m + 1][..m] == groups[..m];
      CopyPlanPrefixFails(groups, documents, m + 1);
    } else {
      assert groups[..m] == groups;
    }
  }

  /** The copy reads an existing page of a document that loaded. */
  ghost predicate ReadsLoadedPage(c: Copy, documents: seq<StoredDocument>) {
    c.document < |documents| && documents[c.document].loadedPageCount.Some? &&
    0 <= c.pageIndex < documents[c.document].loadedPageCount.value
  }

  /** The copy is page `pageIndex + 1` of the group, from the document the group's id finds. */
  ghost predicate CopiesFrom(c: Copy, group: Group, documents: seq<StoredDocument>) {
    FindDocument(documents, group.documentId) == c.document && c.pageIndex + 1 in group.pages
  }

  /** One group's copies: all its pages when its document is known, none otherwise, and nothing else. */
  lemma GroupCopiesFacts(group: Group, documents: seq<StoredDocument>)
    requires GroupCopies(group, documents).Some?
    ensures |GroupCopies(group, documents).value| ==
      if FindDocument(documents, group.documentId) < |documents| then |group.pages| else 0
    ensures forall c :: c in GroupCopies(group, documents).value ==>
      ReadsLoadedPage(c, documents) && CopiesFrom(c, group, documents)
    ensures forall p :: p in group.pages && FindDocument(documents, group.documentId) < |documents| ==>
      Copy(FindDocument(documents, group.documentId), p - 1) in GroupCopies(group, documents).value
  {
    var k := FindDocument(documents, group.documentId);
    if k < |documents| {
      var sorted := SortAscending(group.pages);
      SortMembers(group.pages);
      var copies := GroupCopies(group, documents).value;
      assert copies == seq(|sorted|, i requires 0 <= i < |sorted| => Copy(k, sorted[i] - 1));
      forall c | c in copies
        ensures ReadsLoadedPage(c, documents) && CopiesFrom(c, group, documents)
      {
        var i :| 0 <= i < |copies| && copies[i] == c;
        assert sorted[i] in sorted;
      }
      forall p | p in group.pages
        ensures Copy(k, p - 1) in copies
      {
        assert p in sorted;
        var i :| 0 <= i < |sorted| && sorted[i] == p;
        assert copies[i] == Copy(k, p - 1);
      }
    }
  }

  /** A successful merge has as many pages as the known documents' groups together. */
  lemma {:induction false} CopyPlanCount(groups: seq<Group>, documents: seq<StoredDocument>)
    requires CopyPlan(groups, documents).Some?
    ensures |CopyPlan(groups, documents).value| == KeptPageCount(groups, documents)
  {
    if groups != [] {
      CopyPlanCount(groups[..|groups| - 1], documents);
      GroupCopiesFacts(groups[|groups| - 1], documents);
    }
  }

  /** Every page of a successful merge is an existing page of a loaded document, taken from one of the groups. */
  lemma {:induction false} CopyPlanSound(groups: seq<Group>, documents: seq<StoredDocument>)
    requires CopyPlan(groups, documents).Some?
    ensures forall c :: c in CopyPlan(groups, documents).value ==>
      ReadsLoadedPage(c, documents) && exists k :: 0 <= k < |groups| && CopiesFrom(c, groups[k], documents)
  {
    if groups != [] {
      var init, last := groups[..|groups| - 1], groups[|groups| - 1];
      CopyPlanSound(init, documents);
      GroupCopiesFacts(last, documents);
      var before := CopyPlan(init, documents).value;
      assert CopyPlan(groups, documents).value == before + GroupCopies(last, documents).value;
      forall c | c in CopyPlan(groups, documents).value
        ensures ReadsLoadedPage(c, documents) && exists k :: 0 <= k < |groups| && CopiesFrom(c, groups[k], documents)
      {
        if c in before {
          var k :| 0 <= k < |init| && CopiesFrom(c, init[k], documents);
          assert groups[k] == init[k];
        } else {
          assert CopiesFrom(c, groups[|groups| - 1], documents);
        }
      }
    }
  }

  /** A successful merge holds every page of every group whose document is known. */
  lemma {:induction false} CopyPlanComplete(groups: seq<Group>, documents: seq<StoredDocument>, k: nat, p: int)
    requires CopyPlan(groups, documents).Some?
    requires k < |groups| && FindDocument(documents, groups[k].documentId) < |documents| && p in groups[k].pages
    ensures Copy(FindDocument(documents, groups[k].documentId), p - 1) in CopyPlan(groups, documents).value
  {
    var init, last := groups[..|groups| - 1], groups[|groups| - 1];
    assert CopyPlan(groups, documents).value == CopyPlan(init, documents).value + GroupCopies(last, documents).value;
    if k < |init| {
      assert groups[k] == init[k];
      CopyPlanComplete(init, documents, k, p);
    } else {
      GroupCopiesFacts(last, documents);
    }
  }

  /** A selected result's document has a group, and the result's page is in it. */
  lemma SelectedPageIsGrouped(marks: seq<bool>, results: seq<DocumentResult>, i: nat)
    requires |marks| == |results| && i < |results| && marks[i]
    ensures GroupIndex(Grouped(marks, results, |results|), results[i].documentId) < |Grouped(marks, results, |results|)|
    ensures results[i].pageNumber in
      Grouped(marks, results, |results|)[GroupIndex(Grouped(marks, results, |results|), results[i].documentId)].pages
  {
    var n := |results|;
    var groups := Grouped(marks, results, n);
    var d, p := results[i].documentId, results[i].pageNumber;
    var k := GroupIndex(groups, d);
    assert k < |groups| by {
      FirstSelectedIsFirst(marks, results, n, d);
      GroupedDocuments(marks, results, n);
    }
    assert PageSelected(marks, results, n, groups[k].documentId, p);
    GroupedPages(marks, results, n);
  }

  /** A saved export holds the whole copy plan of the grouped selection. */
  lemma ExportedPlan(selected: set<string>, results: seq<DocumentResult>, documents: seq<StoredDocument>, saved: bool)
    requires ExportOutcome(selected, results, documents, saved).Exported?
    ensures CopyPlan(Grouped(Marks(selected, results), results, |results|), documents) ==
      Some(ExportOutcome(selected, results, documents, saved).copies)
  {
  }

  /** The merged page count is the number of distinct selected pages of known documents. */
  lemma ExportedPageCount(selected: set<string>, results: seq<DocumentResult>, documents: seq<StoredDocument>, saved: bool)
    requires ExportOutcome(selected, results, documents, saved).Exported?
    ensures |ExportOutcome(selected, results, documents, saved).copies| ==
      KeptPageCount(Grouped(Marks(selected, results), results, |results|), documents)
  {
    ExportedPlan(selected, results, documents, saved);
    CopyPlanCount(Grouped(Marks(selected, results), results, |results|), documents);
  }

  /** A saved export copies the page of every selected result whose document is known, from index page - 1. */
  lemma ExportCopiesEverySelectedPage(selected: set<string>, results: seq<DocumentResult>, documents: seq<StoredDocument>, saved: bool, i: nat)
    requires ExportOutcome(selected, results, documents, saved).Exported?
    requires i < |results| && ResultKey(results[i], i) in selected
    requires FindDocument(documents, results[i].documentId) < |documents|
    ensures Copy(FindDocument(documents, results[i].documentId), results[i].pageNumber - 1) in
      ExportOutcome(selected, results, documents, saved).copies
  {
    var marks := Marks(selected, results);
    var groups := Grouped(marks, results, |results|);
    var k := GroupIndex(groups, results[i].documentId);
    assert marks[i];
    SelectedPageIsGrouped(marks, results, i);
    ExportedPlan(selected, results, documents, saved);
    CopyPlanComplete(groups, documents, k, results[i].pageNumber);
  }

  /** Every page of a saved export is the page of a selected result, copied from index page - 1 of its document. */
  lemma ExportCopiesOnlySelectedPages(selected: set<string>, results: seq<DocumentResult>, documents: seq<StoredDocument>, saved: bool, c: Copy)
    requires ExportOutcome(selected, results, documents, saved).Exported?
    requires c in ExportOutcome(selected, results, documents, saved).copies
    ensures ReadsLoadedPage(c, documents)
    ensures exists i ::
      0 <= i < |results| && ResultKey(results[i], i) in selected &&
      FindDocument(documents, results[i].documentId) == c.document && results[i].pageNumber - 1 == c.pageIndex
  {
    var n := |results|;
    var marks := Marks(selected, results);
    var groups := Grouped(marks, results, n);
    ExportedPlan(selected, results, documents, saved);
    CopyPlanSound(groups, documents);
    GroupedPages(marks, results, n);
    var k :| 0 <= k < |groups| && CopiesFrom(c, groups[k], documents);
    assert PageSelected(marks, results, n, groups[k].documentId, c.pageIndex + 1);
    var i :| 0 <= i < n && marks[i] && results[i].documentId == groups[k].documentId && results[i].pageNumber == c.pageIndex + 1;
    assert ResultKey(results[i], i) in selected;
  }

  /** A group's page list, once sorted, is strictly ascending and holds exactly its selected pages. */
  lemma GroupPagesSorted(marks: seq<bool>, results: seq<DocumentResult>, k: nat)
    requires |marks| == |results|
    requires k < |Grouped(marks, results, |results|)|
    ensures StrictlyAscending(SortAscending(Grouped(marks, results, |results|)[k].pages))
    ensures forall p :: p in SortAscending(Grouped(marks, results, |results|)[k].pages) <==>
      PageSelected(marks, results, |results|, Grouped(marks, results, |results|)[k].documentId, p)
  {
    GroupedPages(marks, results, |results|);
    SortedPages(Grouped(marks, results, |results|)[k].pages);
  }

  class ExportButton {
    /** The `isExporting` state. */
    var isExporting: bool

    constructor ()
      ensures !isExporting
    {
      isExporting := false;
    }

    /** `disabled={selectedResults.size === 0 || isExporting}`. */
    predicate Disabled(selected: set<string>)
      reads this
    {
      |selected| == 0 || isExporting
    }

    /** The `copyPages` loop over one group's sorted pages. */
    static method CopyPages(doc: nat, pages: seq<int>, pageCount: nat) returns (copied: Option<seq<Copy>>)
      ensures copied == PageCopies(doc, pages, pageCount)
    {
      var out: seq<Copy> := [];
      var i := 0;
      while i < |pages|
        invariant 0 <= i <= |pages|
        invariant forall j :: 0 <= j < i ==> 1 <= pages[j] <= pageCount
        invariant |out| == i
        invariant forall j :: 0 <= j < i ==> out[j] == Copy(doc, pages[j] - 1)
      {
        if !(1 <= pages[i] <= pageCount) {
          assert pages[i] in pages;
          return None;
        }
        out := out + [Copy(doc, pages[i] - 1)];
        i := i + 1;
      }
      assert out == seq(|pages|, j requires 0 <= j < |pages| => Copy(doc, pages[j] - 1));
      return Some(out);
    }

    /**
     * The `for ... of selectedByDoc` loop: each group's copies are appended
     * in turn, and the first group that rejects ends the export.
     */
    static method MergeGroups(groups: seq<Group>, documents: seq<StoredDocument>) returns (plan: Option<seq<Copy>>)
      ensures plan == CopyPlan(groups, documents)
    {
      var merged: seq<Copy> := [];
      var g := 0;
      while g < |groups|
        invariant 0 <= g <= |groups|
        invariant CopyPlan(groups[..g], documents) == Some(merged)
      {
        assert groups[..g + 1][..g] == groups[..g];
        assert groups[..g + 1][g] == groups[g];
        var k := FindDocument(documents, groups[g].documentId);
        if k < |documents| {
          match documents[k].loadedPageCount {
            case None =>
              CopyPlanPrefixFails(groups, documents, g + 1);
              return None;
            case Some(count) =>
              var copied := CopyPages(k, SortAscending(groups[g].pages), count);
              if copied.None? {
                CopyPlanPrefixFails(groups, documents, g + 1);
                return None;
              }
              assert GroupCopies(groups[g], documents) == copied;
              merged := merged + copied.value;
          }
        } else {
          assert GroupCopies(groups[g], documents) == Some([]);
          assert merged + [] == merged;
        }
        g := g + 1;
      }
      assert groups[..g] == groups;
      return Some(merged);
    }

    /**
     * `handleExport`: an empty selection is refused before anything
     * changes; otherwise the merge is built, `isExporting` is set for the
     * duration and is false again at the end, whether the export succeeded
     * or failed.  `saved` is whether `mergedPdf.save()` resolves.
     */
    method HandleExport(selected: set<string>, results: seq<DocumentResult>, documents: seq<StoredDocument>, saved: bool)
      returns (outcome: Outcome)
      modifies this
      ensures outcome == ExportOutcome(selected, results, documents, saved)
      ensures isExporting == (if |selected| == 0 then old(isExporting) else false)
    {
      if |selected| == 0 {
        return NothingSelected;
      }
      isExporting := true;
      var groups := GroupSelected(selected, results);
      var plan := MergeGroups(groups, documents);
      outcome := if plan.Some? && saved then Exported(plan.value) else ExportFailed;
      isExporting := false;
    }
  }

  /**
   * The button can be pressed only with a non-empty selection, so a press
   * never meets the empty-selection error; and it can be pressed whenever
   * something is selected and no export is running.
   */
  lemma EnabledButtonExports(b: ExportButton, selected: set<string>, results: seq<DocumentResult>,
                             documents: seq<StoredDocument>, saved: bool)
    ensures !b.Disabled(selected) ==> !ExportOutcome(selected, results, documents, saved).NothingSelected?
    ensures |selected| > 0 && !b.isExporting ==> !b.Disabled(selected)
  {
  }
}
