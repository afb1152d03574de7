/**
 What the page editor's handlers guarantee about the page list, stated over the functions
 that describe them in `PageEdits`.
 */
module PageEditLaws {
  import opened Wrappers
  import opened Strings
  import opened Documents
  import opened Selection
  import opened RangeParser
  import SplitEngine
  import opened PageEdits

  // ----- delete -----

  /**
   A delete removes exactly the selected pages: one page per selected row goes, and the
   pages left together with the selected ones are the pages before.
   */
  lemma DeleteRemovesSelected(pages: seq<PageRef>, sel: set<nat>)
    requires RowsIn(sel, |pages|) && pages != [] && sel != {}
    ensures DeleteRun(pages, sel).0.Deleted? && DeleteRun(pages, sel).0.count == |sel|
    ensures |DeleteRun(pages, sel).1| == |pages| - |sel|
    ensures multiset(DeleteRun(pages, sel).1) + multiset(Keep(pages, sel)) == multiset(pages)
  {
    DropLength(pages, sel);
    KeepDropPartition(pages, sel, 0);
  }

  /**
   The cursor after a delete: -1 exactly when no page is left; otherwise a row of the new
   list that is the smallest selected row or, when that is past the end, the last row.
   */
  lemma DeleteCursor(pages: seq<PageRef>, sel: set<nat>)
    requires RowsIn(sel, |pages|) && pages != [] && sel != {}
    ensures DeleteRun(pages, sel).0.Deleted?
    ensures var c := DeleteRun(pages, sel).0.cursor;
            var left := |pages| - |sel|;
            && (c == -1 <==> left == 0)
            && (left > 0 ==> 0 <= c < left && (forall x :: x in sel ==> c <= x))
            && (left > 0 ==> c == left - 1 || c in sel)
  {
    DropLength(pages, sel);
    DescendingLists(sel, |pages|);
    DescendingLast(Descending(sel, |pages|), sel, |pages|);
  }

  // ----- extract, duplicate, rotate -----

  /**
   An extract writes one page per selected row, the page of the i-th smallest row in i-th
   place, to a path that ends in `.pdf` whatever the letter case.
   */
  lemma ExtractWritesSelectedInOrder(pages: seq<PageRef>, sel: set<nat>, chosen: string)
    requires RowsIn(sel, |pages|) && pages != [] && sel != {} && chosen != []
    ensures ExtractRun(pages, sel, chosen).Extracted?
    ensures EndsWith(Lower(ExtractRun(pages, sel, chosen).dest), ".pdf")
    ensures |ExtractRun(pages, sel, chosen).written| == |sel| == |Ascending(sel, |pages|)|
    ensures forall i :: 0 <= i < |Ascending(sel, |pages|)| ==>
      ExtractRun(pages, sel, chosen).written[i] == pages[Ascending(sel, |pages|)[i]]
  {
    DropLength(pages, sel);
    PickAscending(pages, sel);
  }

  /**
   A duplicate keeps every page where it was and appends, for the i-th smallest selected
   row, that row's page object again.
   */
  lemma DuplicateAppendsCopies(pages: seq<PageRef>, sel: set<nat>)
    requires RowsIn(sel, |pages|) && pages != [] && sel != {}
    ensures DuplicateRun(pages, sel).0 == Duplicated(|sel|)
    ensures |DuplicateRun(pages, sel).1| == |pages| + |sel|
    ensures DuplicateRun(pages, sel).1[..|pages|] == pages
    ensures |Ascending(sel, |pages|)| == |sel|
    ensures forall i :: 0 <= i < |Ascending(sel, |pages|)| ==>
      DuplicateRun(pages, sel).1[|pages| + i] == pages[Ascending(sel, |pages|)[i]]
  {
    DropLength(pages, sel);
    PickAscending(pages, sel);
    var p := DuplicateRun(pages, sel).1;
    assert p == pages + Keep(pages, sel);
  }

  /** Every selected page object is among the pages the selection lists. */
  lemma KeepComesFromSelectedRows(pages: seq<PageRef>, sel: set<nat>, h: PageRef)
    requires h in Keep(pages, sel)
    ensures exists r :: 0 <= r < |pages| && r in sel && pages[r] == h
  {
    PickAscending(pages, sel);
    var rows := Ascending(sel, |pages|);
    var i :| 0 <= i < |Keep(pages, sel)| && Keep(pages, sel)[i] == h;
    assert pages[rows[i]] == h;
  }

  /**
   A rotate turns a page object once for every selected row holding it, so a page copied by
   a duplicate and selected twice is turned twice.
   */
  lemma RotateTurnsSelectedHandles(pages: seq<PageRef>, rot: map<PageRef, int>, sel: set<nat>, deg: int, h: PageRef)
    requires RowsIn(sel, |pages|) && pages != [] && sel != {}
    ensures RotateRun(pages, rot, sel, deg).0 == Rotated(|sel|)
    ensures Angle(RotateRun(pages, rot, sel, deg).1, h) == Angle(rot, h) + deg * multiset(Keep<PageRef>(pages, sel))[h]
  {
    DropLength(pages, sel);
    var refs := Keep(pages, sel);
    var turned := TurnAll(rot, refs, deg, |refs|);
    assert RotateRun(pages, rot, sel, deg) == (Rotated(|refs|), turned);
    TurnAllAngle(rot, refs, deg, |refs|, h);
    assert refs[..|refs|] == refs;
  }

  /** A page object on no selected row keeps its angle. */
  lemma RotateLeavesOthers(pages: seq<PageRef>, rot: map<PageRef, int>, sel: set<nat>, deg: int, h: PageRef)
    requires RowsIn(sel, |pages|) && pages != [] && sel != {}
    requires forall r :: 0 <= r < |pages| && r in sel ==> pages[r] != h
    ensures Angle(RotateRun(pages, rot, sel, deg).1, h) == Angle(rot, h)
  {
    RotateTurnsSelectedHandles(pages, rot, sel, deg, h);
    if h in Keep(pages, sel) {
      KeepComesFromSelectedRows(pages, sel, h);
    }
    assert multiset(Keep<PageRef>(pages, sel))[h] == 0;
  }

  // ----- insert -----

  /** The expanded pages are pages of the source document. */
  lemma {:induction false} SpanPagesFromSource(ps: seq<PageRef>, rs: seq<Range>, n: nat)
    requires n <= |rs| && SplitEngine.FromPageOne(rs)
    requires forall i :: 0 <= i < n ==> SplitEngine.Fits(rs[i], |ps|)
    ensures forall x :: x in SplitEngine.SpanPagesUpTo(ps, rs, n) ==> x in ps
  {
    if n > 0 {
      SpanPagesFromSource(ps, rs, n - 1);
      var last := SplitEngine.SpanPages(ps, rs[n - 1]);
      assert SplitEngine.SpanPagesUpTo(ps, rs, n) == SplitEngine.SpanPagesUpTo(ps, rs, n - 1) + last;
      forall x | x in last ensures x in ps {
        var i :| 0 <= i < |last| && last[i] == x;
        assert ps[rs[n - 1].0 - 1 + i] == x;
      }
    }
  }

  /** Splicing `exp` in at `pos` keeps the pages around it in their places and order. */
  lemma SpliceLayout(pages: seq<PageRef>, exp: seq<PageRef>, pos: nat, ps: seq<PageRef>)
    requires pos <= |pages|
    requires forall x :: x in exp ==> x in ps
    ensures var p := pages[..pos] + exp + pages[pos..];
            && |p| == |pages| + |exp|
            && p[..pos] == pages[..pos]
            && p[pos + |exp|..] == pages[pos..]
            && forall i :: pos <= i < pos + |exp| ==> p[i] in ps
  {
    var p := pages[..pos] + exp + pages[pos..];
    assert p[..pos] == pages[..pos];
    assert p[pos + |exp|..] == pages[pos..];
    forall i | pos <= i < pos + |exp| ensures p[i] in ps {
      assert p[i] == exp[i - pos];
    }
  }

  /**
   Once the file is open, a blank range text cancels the insert and any other text inserts
   the ranges it parses to.
   */
  lemma InsertRunParsesText(pages: seq<PageRef>, current: int, ps: seq<PageRef>, text: string)
    requires -1 <= current < |pages|
    ensures Strip(text) == [] ==> InsertRun(pages, current, Some(Readable(ps)), Some(text)) == (Cancelled, pages)
    ensures Strip(text) != [] ==>
      InsertRun(pages, current, Some(Readable(ps)), Some(text)) == InsertRanges(pages, current, ps, Ranges(text, |ps|))
  {
    assert InsertRun(pages, current, Some(Readable(ps)), Some(text)) == InsertText(pages, current, ps, text);
  }

  /**
   An insert puts its pages in one block at the insert position, and leaves the cursor
   there: the pages before that position stay in front of it, the others follow it in
   their old order, and every page of the block comes from the source document.
   */
  lemma InsertLayout(pages: seq<PageRef>, current: int, ps: seq<PageRef>, rs: seq<Range>)
    requires -1 <= current < |pages|
    requires rs != [] && SplitEngine.FromPageOne(rs) && AllFit(ps, rs)
    ensures var (o, p) := InsertRanges(pages, current, ps, rs);
            var pos := InsertPos(current);
            && o == Inserted(o.count, pos)
            && |p| == |pages| + o.count
            && p[..pos] == pages[..pos]
            && p[pos + o.count..] == pages[pos..]
            && forall i :: pos <= i < pos + o.count ==> p[i] in ps
  {
    var exp := Expansion(ps, rs);
    SpanPagesFromSource(ps, rs, |rs|);
    SpliceLayout(pages, exp, InsertPos(current), ps);
  }

  /** With at least one page, every parsed range fits the document. */
  lemma RangesFit(ps: seq<PageRef>, text: string)
    requires |ps| >= 1
    ensures AllFit(ps, Ranges(text, |ps|))
  {
    RangesBounded(text, |ps|);
  }

  /**
   From a document with pages, every range the text names fits, so a text with at least one
   valid range is always inserted.
   */
  lemma InsertFromDocumentWithPages(pages: seq<PageRef>, current: int, ps: seq<PageRef>, text: string)
    requires -1 <= current < |pages|
    requires |ps| >= 1 && Strip(text) != [] && Ranges(text, |ps|) != []
    ensures InsertRun(pages, current, Some(Readable(ps)), Some(text)).0.Inserted?
  {
    InsertRunParsesText(pages, current, ps, text);
    RangesFit(ps, text);
  }

  /**
   From a document without pages, every range is clamped to `(1, 1)`, whose page does not
   exist: a text with a valid range ends in the index error, with the list unchanged.
   */
  lemma InsertFromEmptyDocument(pages: seq<PageRef>, current: int, text: string)
    requires -1 <= current < |pages|
    requires Strip(text) != [] && Ranges(text, 0) != []
    ensures InsertRun(pages, current, Some(Readable([])), Some(text)) == (IndexOutOfRange, pages)
  {
    InsertRunParsesText(pages, current, [], text);
    RangesWithoutPages(text, 0);
    assert !SplitEngine.Fits(Ranges(text, 0)[0], 0);
  }
}
