/**
 The page editor: the pages of one loaded document, held as a list of page handles that the
 load, delete, extract, rotate, duplicate and insert handlers change in place.  A handle
 stands for a pypdf page object: two rows holding the same handle are the same object, as
 after a duplicate, so turning one turns the other.
 */
module PageEdits {
  import opened Wrappers
  import opened Strings
  import opened Documents
  import opened Selection
  import opened RangeParser
  import SplitEngine

  /** What a handler did, or why it stopped (the message box it shows). */
  datatype EditOutcome =
    | NotLoaded                        // "PDFを読み込んでください。": the page list is empty
    | NothingSelected                  // "...ページを選択してください。"
    | Cancelled                        // a file or text dialog was dismissed, or the text is blank
    | OpenFailed                       // `PdfReader` raised
    | EncryptedRefused                 // `decrypt("")` raised
    | InvalidRanges                    // "範囲の指定が不正です。": no range survived parsing
    | IndexOutOfRange                  // `r.pages[i]` raised: the handler stops, nothing changed
    | Cleared                          // blank or missing source path: the editor is emptied
    | Loaded(count: nat)               // the document's pages are the new list, cursor on row 0
    | Deleted(count: nat, cursor: int) // rows removed; the cursor row set afterwards
    | Extracted(dest: string, written: seq<PageRef>)
    | Rotated(count: nat)
    | Duplicated(count: nat)
    | Inserted(count: nat, cursor: int)

  // ----- rotation -----

  /** The turn a handle has received in this session; every handle starts at 0. */
  function Angle(rot: map<PageRef, int>, p: PageRef): int {
    if p in rot then rot[p] else 0
  }

  /** `page.rotate(deg)` adds `deg` to the page's angle; nothing reduces it modulo 360. */
  function Turn(rot: map<PageRef, int>, p: PageRef, deg: int): map<PageRef, int> {
    rot[p := Angle(rot, p) + deg]
  }

  /** Turning `p` changes the angle of `p` by `deg` and of no other handle. */
  lemma TurnAngle(rot: map<PageRef, int>, p: PageRef, deg: int, q: PageRef)
    ensures Angle(Turn(rot, p, deg), q) == if q == p then Angle(rot, p) + deg else Angle(rot, q)
  {
  }

  /** The angles after turning the first `n` handles of `refs` by `deg`, one after the other. */
  function TurnAll(rot: map<PageRef, int>, refs: seq<PageRef>, deg: int, n: nat): map<PageRef, int>
    requires n <= |refs|
  {
    if n == 0 then rot else Turn(TurnAll(rot, refs, deg, n - 1), refs[n - 1], deg)
  }

  /** Extending a prefix by one handle counts that handle once more and no other. */
  lemma PrefixCount(refs: seq<PageRef>, n: nat, p: PageRef)
    requires 0 < n <= |refs|
    ensures multiset(refs[..n])[p] == multiset(refs[..n - 1])[p] + (if refs[n - 1] == p then 1 else 0)
  {
    assert refs[..n] == refs[..n - 1] + [refs[n - 1]];
  }

  /** The last turn of `TurnAll` changes only the angle of the handle it turns. */
  lemma TurnAllStep(rot: map<PageRef, int>, refs: seq<PageRef>, deg: int, n: nat, p: PageRef)
    requires 0 < n <= |refs|
    ensures Angle(TurnAll(rot, refs, deg, n), p)
         == Angle(TurnAll(rot, refs, deg, n - 1), p) + (if refs[n - 1] == p then deg else 0)
  {
    TurnAngle(TurnAll(rot, refs, deg, n - 1), refs[n - 1], deg, p);
  }

  /** A handle listed `k` times is turned `k` times: by `k * deg` in all. */
  lemma {:induction false} TurnAllAngle(rot: map<PageRef, int>, refs: seq<PageRef>, deg: int, n: nat, p: PageRef)
    requires n <= |refs|
    ensures Angle(TurnAll(rot, refs, deg, n), p) == Angle(rot, p) + deg * multiset(refs[..n])[p]
  {
    if n > 0 {
      TurnAllAngle(rot, refs, deg, n - 1, p);
      TurnAllStep(rot, refs, deg, n, p);
      PrefixCount(refs, n, p);
      var k := multiset(refs[..n - 1])[p];
      var c := if refs[n - 1] == p then 1 else 0;
      assert deg * (k + c) == deg * k + deg * c;
    }
  }

  // ----- what each handler does, as a function of the list before it -----

  /**
   `_edit_load_from_path`.  A blank or missing path empties the editor; a file that does not
   open empties it too; a file whose `decrypt("")` raises is refused and the previous
   document stays loaded; otherwise its pages become the list.
   */
  function LoadRun(pages: seq<PageRef>, path: string, src: Source): (EditOutcome, seq<PageRef>) {
    if Strip(path) == [] || src.Missing? then (Cleared, [])
    else match src
      case Unreadable => (OpenFailed, [])
      case Locked => (EncryptedRefused, pages)
      case Readable(ps) => (Loaded(|ps|), ps)
      case Missing => (Cleared, [])
  }

  /** The row `setCurrentRow` gets after a delete: `min(rows[-1], len - 1)`, or -1 when empty. */
  function CursorAfterDelete(rows: seq<nat>, left: nat): int
    requires |rows| > 0
  {
    if left == 0 then -1
    else if rows[|rows| - 1] <= left - 1 then rows[|rows| - 1] else left - 1
  }

  /** `on_edit_delete_pages`: the selected rows removed, everything else kept in order. */
  function DeleteRun(pages: seq<PageRef>, sel: set<nat>): (EditOutcome, seq<PageRef>)
    requires RowsIn(sel, |pages|)
  {
    if pages == [] then (NotLoaded, pages)
    else if sel == {} then (NothingSelected, pages)
    else
      var rows := Descending(sel, |pages|);
      NonEmptySelection(sel, |pages|);
      (Deleted(|sel|, CursorAfterDelete(rows, |Drop(pages, sel)|)), Drop(pages, sel))
  }

  /** `on_edit_extract_pages`: the selected pages in ascending row order, into a `.pdf` path. */
  function ExtractRun(pages: seq<PageRef>, sel: set<nat>, chosen: string): EditOutcome {
    if pages == [] then NotLoaded
    else if sel == {} then NothingSelected
    else if chosen == [] then Cancelled
    else Extracted(WithPdfSuffix(chosen), Keep(pages, sel))
  }

  /**
   `on_edit_rotate`: the page object of each selected row turned by `deg`, in ascending row
   order; the page list itself is unchanged.
   */
  function RotateRun(pages: seq<PageRef>, rot: map<PageRef, int>, sel: set<nat>, deg: int): (EditOutcome, map<PageRef, int>) {
    if pages == [] then (NotLoaded, rot)
    else if sel == {} then (NothingSelected, rot)
    else
      var refs := Keep(pages, sel);
      (Rotated(|refs|), TurnAll(rot, refs, deg, |refs|))
  }

  /** `on_edit_duplicate_pages`: copies of the selected pages appended in ascending row order. */
  function DuplicateRun(pages: seq<PageRef>, sel: set<nat>): (EditOutcome, seq<PageRef>) {
    if pages == [] then (NotLoaded, pages)
    else if sel == {} then (NothingSelected, pages)
    else (Duplicated(|Keep(pages, sel)|), pages + Keep(pages, sel))
  }

  /** Every range starts at page 1 or later and ends by the last page of `ps`. */
  predicate AllFit(ps: seq<PageRef>, rs: seq<Range>) {
    SplitEngine.FromPageOne(rs) && forall i :: 0 <= i < |rs| ==> SplitEngine.Fits(rs[i], |ps|)
  }

  /** `pages_to_insert`: pages `s..e` of each range, range after range, repeats kept. */
  function Expansion(ps: seq<PageRef>, rs: seq<Range>): seq<PageRef>
    requires AllFit(ps, rs)
  {
    SplitEngine.SpanPagesUpTo(ps, rs, |rs|)
  }

  /** The insert position: the current row, or 0 when there is none. */
  function InsertPos(current: int): nat {
    if current >= 0 then current else 0
  }

  /**
   `on_edit_insert_pages`: the pages of the parsed ranges of the chosen file, spliced in
   before the current row.  `src` is `None` when the file dialog is dismissed and `text`
   when the range dialog is.
   */
  function InsertRun(pages: seq<PageRef>, current: int, src: Option<Source>, text: Option<string>): (EditOutcome, seq<PageRef>)
    requires -1 <= current < |pages|
  {
    match src
    case None => (Cancelled, pages)
    case Some(Missing) => (OpenFailed, pages)
    case Some(Unreadable) => (OpenFailed, pages)
    case Some(Locked) => (EncryptedRefused, pages)
    case Some(Readable(ps)) =>
      if text.None? then (Cancelled, pages) else InsertText(pages, current, ps, text.value)
  }

  /** The insert once the file is open: a blank range text cancels it. */
  function InsertText(pages: seq<PageRef>, current: int, ps: seq<PageRef>, text: string): (EditOutcome, seq<PageRef>)
    requires -1 <= current < |pages|
  {
    if Strip(text) == [] then (Cancelled, pages) else InsertRanges(pages, current, ps, Ranges(text, |ps|))
  }

  /** The insert of the parsed ranges `rs` of the open file's pages `ps`. */
  function InsertRanges(pages: seq<PageRef>, current: int, ps: seq<PageRef>, rs: seq<Range>): (EditOutcome, seq<PageRef>)
    requires -1 <= current < |pages|
  {
    if rs == [] then (InvalidRanges, pages)
    else if !AllFit(ps, rs) then (IndexOutOfRange, pages)
    else
      var pos := InsertPos(current);
      var exp := Expansion(ps, rs);
      (Inserted(|exp|, pos), pages[..pos] + exp + pages[pos..])
  }

  /** `if not rows`: the sorted rows are empty exactly when nothing is selected. */
  lemma NonEmptySelection(sel: set<nat>, n: nat)
    requires RowsIn(sel, n)
    ensures Ascending(sel, n) == [] <==> sel == {}
    ensures Descending(sel, n) == [] <==> sel == {}
  {
    AscendingCardinality(sel, n);
    assert |Descending(sel, n)| == |Ascending(sel, n)|;
  }

  // ----- sequence steps the handlers' loops take -----

  /** After the delete loop: the list is the original with the selected rows removed. */
  lemma DeleteDone(s: seq<PageRef>, sel: set<nat>, rows: seq<nat>, b: nat, pages: seq<PageRef>, next: int)
    requires RowsIn(sel, |s|) && s != [] && rows == Descending(sel, |s|) && rows != []
    requires b == rows[|rows| - 1] && pages == s[..b] + DropFrom(s[b..], sel, b)
    requires next == if pages != [] then (if rows[|rows| - 1] <= |pages| - 1 then rows[|rows| - 1] else |pages| - 1) else -1
    ensures (Deleted(|rows|, next), pages) == DeleteRun(s, sel)
  {
    DescendingLists(sel, |s|);
    NonEmptySelection(sel, |s|);
    DescendingLast(rows, sel, |s|);
    PopDone(s, sel, b);
    AscendingCardinality(sel, |s|);
  }

  /** One `insert(pos + offset, pg)` of the insert loop. */
  lemma InsertStep(s: seq<PageRef>, exp: seq<PageRef>, pos: nat, offset: nat)
    requires pos <= |s| && offset < |exp|
    ensures var p := s[..pos] + exp[..offset] + s[pos..];
      pos + offset <= |p|
      && p[..pos + offset] + [exp[offset]] + p[pos + offset..] == s[..pos] + exp[..offset + 1] + s[pos..]
  {
    var p := s[..pos] + exp[..offset] + s[pos..];
    assert p[..pos + offset] == s[..pos] + exp[..offset];
    assert p[pos + offset..] == s[pos..];
    assert exp[..offset + 1] == exp[..offset] + [exp[offset]];
  }

  class EditSession {
    /** `self._edit_pages` */
    var pages: seq<PageRef>
    /** The turns applied to each page object in this session. */
    var rotation: map<PageRef, int>

    constructor()
      ensures pages == [] && rotation == map[]
    {
      pages := [];
      rotation := map[];
    }

    method Load(path: string, src: Source) returns (res: EditOutcome)
      modifies this
      ensures (res, pages) == LoadRun(old(pages), path, src)
      ensures res == EncryptedRefused ==> rotation == old(rotation)
      ensures res != EncryptedRefused ==> rotation == map[]
    {
      var p := Strip(path);
      if p == [] || src.Missing? {
        pages := [];
        rotation := map[];
        return Cleared;
      }
      match src {
        case Unreadable =>
          pages := [];
          rotation := map[];
          return OpenFailed;
        case Locked =>
          return EncryptedRefused;
        case Readable(ps) =>
          pages := ps;
          rotation := map[];
          return Loaded(|ps|);
      }
    }

    /** `on_edit_delete_pages`: pop the selected rows from the highest down. */
    method Delete(sel: set<nat>) returns (res: EditOutcome)
      requires RowsIn(sel, |pages|)
      modifies this
      ensures (res, pages) == DeleteRun(old(pages), sel)
      ensures rotation == old(rotation)
    {
      if pages == [] {
        return NotLoaded;
      }
      var rows := Descending(sel, |pages|);
      if rows == [] {
        NonEmptySelection(sel, |pages|);
        return NothingSelected;
      }
      ghost var s := pages;
      ghost var b := |s|;
      var i := 0;
      while i < |rows|
        invariant 0 <= i <= |rows|
        invariant b == (if i == 0 then |s| else rows[i - 1])
        invariant pages == s[..b] + DropFrom(s[b..], sel, b)
        invariant rotation == old(rotation)
      {
        var r := rows[i];
        DescendingPopStep(s, sel, rows, i, b);
        pages := pages[..r] + pages[r + 1..];
        b := r;
        i := i + 1;
      }
      var next := if pages != [] then (if rows[|rows| - 1] <= |pages| - 1 then rows[|rows| - 1] else |pages| - 1) else -1;
      DeleteDone(s, sel, rows, b, pages, next);
      return Deleted(|rows|, next);
    }

    /** `on_edit_extract_pages`: the writer gets the selected pages in ascending row order. */
    method Extract(sel: set<nat>, chosen: string) returns (res: EditOutcome)
      requires RowsIn(sel, |pages|)
      ensures res == ExtractRun(pages, sel, chosen)
    {
      if pages == [] {
        return NotLoaded;
      }
      var rows := Ascending(sel, |pages|);
      NonEmptySelection(sel, |pages|);
      if rows == [] {
        return NothingSelected;
      }
      if chosen == [] {
        return Cancelled;
      }
      var dest := WithPdfSuffix(chosen);
      var written: seq<PageRef> := [];
      var i := 0;
      while i < |rows|
        invariant 0 <= i <= |rows|
        invariant |written| == i
        invariant forall k :: 0 <= k < i ==> written[k] == pages[rows[k]]
      {
        written := written + [pages[rows[i]]];
        i := i + 1;
      }
      assert written == Pick(pages, rows);
      PickAscending(pages, sel);
      return Extracted(dest, written);
    }

    /** `on_edit_rotate`: turn the page object of each selected row, in ascending row order. */
    method Rotate(sel: set<nat>, deg: int) returns (res: EditOutcome)
      requires RowsIn(sel, |pages|)
      modifies this
      ensures (res, rotation) == RotateRun(pages, old(rotation), sel, deg)
      ensures pages == old(pages)
    {
      if pages == [] {
        return NotLoaded;
      }
      var rows := Ascending(sel, |pages|);
      NonEmptySelection(sel, |pages|);
      if rows == [] {
        return NothingSelected;
      }
      var ps := pages;
      ghost var rot0 := rotation;
      ghost var refs := Pick(ps, rows);
      var i := 0;
      while i < |rows|
        invariant 0 <= i <= |rows|
        invariant rotation == TurnAll(rot0, refs, deg, i)
        invariant pages == ps
      {
        rotation := Turn(rotation, ps[rows[i]], deg);
        i := i + 1;
      }
      PickAscending(ps, sel);
      return Rotated(|rows|);
    }

    /** `on_edit_duplicate_pages`: `extend` the list with the selected pages. */
    method Duplicate(sel: set<nat>) returns (res: EditOutcome)
      requires RowsIn(sel, |pages|)
      modifies this
      ensures (res, pages) == DuplicateRun(old(pages), sel)
      ensures rotation == old(rotation)
    {
      if pages == [] {
        return NotLoaded;
      }
      var rows := Ascending(sel, |pages|);
      NonEmptySelection(sel, |pages|);
      if rows == [] {
        return NothingSelected;
      }
      var copies := Pick(pages, rows);
      PickAscending(pages, sel);
      pages := pages + copies;
      return Duplicated(|copies|);
    }

    /**
     `on_edit_insert_pages`: expand the ranges into a page list, then insert its pages one by
     one from the insert position on.  `current` is the list's `currentRow()`.
     */
    method Insert(current: int, src: Option<Source>, text: Option<string>) returns (res: EditOutcome)
      requires -1 <= current < |pages|
      modifies this
      ensures (res, pages) == InsertRun(old(pages), current, src, text)
      ensures rotation == old(rotation)
    {
      var pos := if current >= 0 then current else 0;
      if src.None? {
        return Cancelled;
      }
      var ps: seq<PageRef>;
      match src.value {
        case Missing =>
          return OpenFailed;
        case Unreadable =>
          return OpenFailed;
        case Locked =>
          return EncryptedRefused;
        case Readable(q) =>
          ps := q;
      }
      if text.None? || Strip(text.value) == [] {
        return Cancelled;
      }
      var rs := ParseRanges(text.value, |ps|);
      if rs == [] {
        return InvalidRanges;
      }
      RangesStartAtPageOne(text.value, |ps|);
      var expansion := Expand(ps, rs);
      if expansion.None? {
        return IndexOutOfRange;
      }
      var exp := expansion.value;
      var list := SpliceIn(pages, exp, pos);
      pages := list;
      return Inserted(|exp|, pos);
    }
  }

  /** `self._edit_pages.insert(pos + offset, pg)` for each page of `exp` in turn. */
  method SpliceIn(s: seq<PageRef>, exp: seq<PageRef>, pos: nat) returns (list: seq<PageRef>)
    requires pos <= |s|
    ensures list == s[..pos] + exp + s[pos..]
  {
    list := s;
    var offset := 0;
    while offset < |exp|
      invariant 0 <= offset <= |exp|
      invariant list == s[..pos] + exp[..offset] + s[pos..]
    {
      InsertStep(s, exp, pos, offset);
      list := list[..pos + offset] + [exp[offset]] + list[pos + offset..];
      offset := offset + 1;
    }
    assert exp[..|exp|] == exp;
  }

  lemma RangesStartAtPageOne(text: string, total: int)
    ensures SplitEngine.FromPageOne(Ranges(text, total))
  {
    RangesBounded(text, total);
  }

  /**
   The expansion loop of `on_edit_insert_pages`: `r.pages[i]` for `i` in `range(s - 1, e)` of
   each range in turn, stopping with `None` at the first index past the end of `ps`.
   */
  method Expand(ps: seq<PageRef>, rs: seq<Range>) returns (exp: Option<seq<PageRef>>)
    requires SplitEngine.FromPageOne(rs)
    ensures AllFit(ps, rs) ==> exp == Some(Expansion(ps, rs))
    ensures !AllFit(ps, rs) ==> exp == None
  {
    var out: seq<PageRef> := [];
    var k := 0;
    while k < |rs|
      invariant 0 <= k <= |rs|
      invariant forall i :: 0 <= i < k ==> SplitEngine.Fits(rs[i], |ps|)
      invariant out == SplitEngine.SpanPagesUpTo(ps, rs, k)
    {
      var ok, copied := SplitEngine.WriteRange(ps, rs[k].0, rs[k].1);
      if !ok {
        assert !SplitEngine.Fits(rs[k], |ps|);
        return None;
      }
      out := out + copied;
      k := k + 1;
    }
    return Some(out);
  }
}
