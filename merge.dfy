/**
 `MergeWorker.run`: the listed PDFs are appended one after the other into a single writer,
 each readable one optionally getting an outline entry (bookmark) named after its file that
 points at its first page.  Items that cannot be read are skipped and the run goes on.
 */
module MergeEngine {
  import opened Wrappers
  import opened Strings
  import opened Documents

  /**
   One entry of the merge list: its path, what opening it gives, and whether
   `add_outline_item` raises for it (a library failure the model takes as given).
   */
  datatype MergeItem = MergeItem(path: string, source: Source, outlineFails: bool)

  /** A bookmark: its title and the index of the output page it points at. */
  datatype OutlineEntry = OutlineEntry(title: string, page: nat)

  /** The messages and progress reports the worker emits, in order. */
  datatype Event =
    | Reading(path: string)          // "reading: <path>"
    | SkippedEncrypted(path: string) // "skipped (encrypted): <path>"
    | SkippedError(path: string)     // "skipped (error): <path> - <exception>"
    | BookmarkFailed(title: string)  // "bookmark failed: <basename>"
    | Progress(done: nat)            // `progress.emit(int(done / total * 100))`, as the count

  /** The writer's pages, its outline, the `done` counter and the events so far. */
  datatype MergeState = MergeState(pages: seq<PageRef>, outline: seq<OutlineEntry>, done: nat, events: seq<Event>)

  datatype MergeOutcome =
    | NothingToMerge                 // the item list is empty: an error, before any work
    | Merged(result: MergeState)     // the writer is written to the output path

  /**
   What one item does to the state.  An item that cannot be opened lands in the
   `except` branch and the `finally` counts it once.  An encrypted item whose `decrypt("")`
   raises counts once before its `continue` and once more in the `finally`
   that the `continue` passes through.
   */
  function Step(st: MergeState, item: MergeItem, addBookmarks: bool): MergeState {
    var ev := st.events + [Reading(item.path)];
    match item.source
    case Missing =>
      MergeState(st.pages, st.outline, st.done + 1, ev + [SkippedError(item.path), Progress(st.done + 1)])
    case Unreadable =>
      MergeState(st.pages, st.outline, st.done + 1, ev + [SkippedError(item.path), Progress(st.done + 1)])
    case Locked =>
      MergeState(st.pages, st.outline, st.done + 2,
                 ev + [SkippedEncrypted(item.path), Progress(st.done + 1), Progress(st.done + 2)])
    case Readable(ps) =>
      var title := Basename(item.path);
      var marked := addBookmarks && !item.outlineFails;
      MergeState(
        st.pages + ps,
        if marked then st.outline + [OutlineEntry(title, |st.pages|)] else st.outline,
        st.done + 1,
        ev + (if addBookmarks && item.outlineFails then [BookmarkFailed(title)] else []) + [Progress(st.done + 1)])
  }

  /** The state after the first `n` items. */
  function MergeUpTo(items: seq<MergeItem>, addBookmarks: bool, n: nat): MergeState
    requires n <= |items|
  {
    if n == 0 then MergeState([], [], 0, []) else Step(MergeUpTo(items, addBookmarks, n - 1), items[n - 1], addBookmarks)
  }

  function MergeRun(items: seq<MergeItem>, addBookmarks: bool): MergeOutcome {
    if items == [] then NothingToMerge else Merged(MergeUpTo(items, addBookmarks, |items|))
  }

  /**
   `MergeWorker.run`: refuse an empty list; otherwise read every item in order, appending
   the pages of each one that opens and recording its bookmark at the page count reached
   before it, and counting every item in `done`.
   */
  method Merge(items: seq<MergeItem>, addBookmarks: bool) returns (out: MergeOutcome)
    ensures out == MergeRun(items, addBookmarks)
  {
    if items == [] {
      return NothingToMerge;
    }
    var st := MergeState([], [], 0, []);
    var i := 0;
    while i < |items|
      invariant 0 <= i <= |items|
      invariant st == MergeUpTo(items, addBookmarks, i)
    {
      st := MergeItemInto(st, items[i], addBookmarks);
      i := i + 1;
    }
    out := Merged(st);
  }

  /** The body of the loop over the items: the `try`, its `except` and its `finally`. */
  method MergeItemInto(st: MergeState, item: MergeItem, addBookmarks: bool) returns (next: MergeState)
    ensures next == Step(st, item, addBookmarks)
  {
    var pages, outline, done := st.pages, st.outline, st.done;
    var events := st.events + [Reading(item.path)];
    match item.source {
      case Readable(ps) =>
        var start := |pages|;
        pages := AppendPages(pages, ps);
        if addBookmarks {
          if item.outlineFails {
            events := events + [BookmarkFailed(Basename(item.path))];
          } else {
            outline := outline + [OutlineEntry(Basename(item.path), start)];
          }
        }
        done := done + 1;
        events := events + [Progress(done)];
      case Locked =>
        events := events + [SkippedEncrypted(item.path)];
        done := done + 1;
        events := events + [Progress(done)];
        // the `continue` runs the `finally` block too
        done := done + 1;
        events := events + [Progress(done)];
      case _ =>
        events := events + [SkippedError(item.path)];
        done := done + 1;
        events := events + [Progress(done)];
    }
    next := MergeState(pages, outline, done, events);
  }

  /** `for page in reader.pages: writer.add_page(page)`: the pages go on at the end, in order. */
  method AppendPages(pages: seq<PageRef>, ps: seq<PageRef>) returns (r: seq<PageRef>)
    ensures r == pages + ps
  {
    r := pages;
    var p := 0;
    while p < |ps|
      invariant 0 <= p <= |ps|
      invariant r == pages + ps[..p]
    {
      r := r + [ps[p]];
      p := p + 1;
    }
    assert ps[..|ps|] == ps;
  }

  // ----- independent descriptions of the result -----

  /** The pages an item contributes: all of its pages if it opens, none otherwise. */
  function Contribution(item: MergeItem): seq<PageRef> {
    if item.source.Readable? then item.source.pages else []
  }

  /** The pages of the first `n` items that open, concatenated in list order. */
  function PagesBefore(items: seq<MergeItem>, n: nat): seq<PageRef>
    requires n <= |items|
  {
    if n == 0 then [] else PagesBefore(items, n - 1) + Contribution(items[n - 1])
  }

  /** The number of locked items among the first `n`. */
  function LockedBefore(items: seq<MergeItem>, n: nat): nat
    requires n <= |items|
  {
    if n == 0 then 0 else LockedBefore(items, n - 1) + (if items[n - 1].source == Locked then 1 else 0)
  }

  /** The item gets a bookmark: it opens, bookmarks are on and adding it does not raise. */
  predicate Bookmarked(item: MergeItem, addBookmarks: bool) {
    item.source.Readable? && addBookmarks && !item.outlineFails
  }

  /** The positions among the first `n` items of those that get a bookmark, ascending. */
  function BookmarkedBefore(items: seq<MergeItem>, addBookmarks: bool, n: nat): (js: seq<nat>)
    requires n <= |items|
    ensures forall t :: 0 <= t < |js| ==> js[t] < n && Bookmarked(items[js[t]], addBookmarks)
  {
    if n == 0 then []
    else BookmarkedBefore(items, addBookmarks, n - 1) + (if Bookmarked(items[n - 1], addBookmarks) then [n - 1] else [])
  }

  /**
   The merged document is the concatenation of the pages of the items that open, in list
   order; the counter has counted every item once and every locked item twice; and bookmark
   `t` belongs to the `t`-th bookmarked item, is titled with its file name and points at the
   number of pages the earlier items contributed.
   */
  lemma {:induction false} MergeUpToDescribed(items: seq<MergeItem>, addBookmarks: bool, n: nat)
    requires n <= |items|
    ensures MergeUpTo(items, addBookmarks, n).pages == PagesBefore(items, n)
    ensures MergeUpTo(items, addBookmarks, n).done == n + LockedBefore(items, n)
    ensures var st := MergeUpTo(items, addBookmarks, n);
      var js := BookmarkedBefore(items, addBookmarks, n);
      && |st.outline| == |js|
      && forall t :: 0 <= t < |js| ==>
           st.outline[t] == OutlineEntry(Basename(items[js[t]].path), |PagesBefore(items, js[t])|)
  {
    if n > 0 {
      MergeUpToDescribed(items, addBookmarks, n - 1);
      var st := MergeUpTo(items, addBookmarks, n - 1);
      var item := items[n - 1];
      StepEffect(st, item, addBookmarks);
      var js := BookmarkedBefore(items, addBookmarks, n - 1);
      var js' := BookmarkedBefore(items, addBookmarks, n);
      var st' := MergeUpTo(items, addBookmarks, n);
      assert st' == Step(st, item, addBookmarks);
      forall t | 0 <= t < |js'|
        ensures st'.outline[t] == OutlineEntry(Basename(items[js'[t]].path), |PagesBefore(items, js'[t])|)
      {
        if t < |js| {
          assert js'[t] == js[t] && st'.outline[t] == st.outline[t];
        }
      }
    }
  }

  /** One item adds its contribution to the pages, counts once (twice if locked) and adds its bookmark if it gets one. */
  lemma StepEffect(st: MergeState, item: MergeItem, addBookmarks: bool)
    ensures Step(st, item, addBookmarks).pages == st.pages + Contribution(item)
    ensures Step(st, item, addBookmarks).done == st.done + 1 + (if item.source == Locked then 1 else 0)
    ensures Step(st, item, addBookmarks).outline
         == st.outline + (if Bookmarked(item, addBookmarks) then [OutlineEntry(Basename(item.path), |st.pages|)] else [])
  {
  }

  lemma {:induction false} PagesBeforeExtend(items: seq<MergeItem>, m: nat, n: nat)
    requires m <= n <= |items|
    ensures |PagesBefore(items, m)| <= |PagesBefore(items, n)|
    ensures PagesBefore(items, n)[..|PagesBefore(items, m)|] == PagesBefore(items, m)
  {
    if m < n {
      PagesBeforeExtend(items, m, n - 1);
      var p, q := PagesBefore(items, n - 1), Contribution(items[n - 1]);
      var k := |PagesBefore(items, m)|;
      assert PagesBefore(items, n) == p + q;
      SliceOfPrefix(p, q, 0, k);
      assert p[0..k] == p[..k] && (p + q)[0..k] == (p + q)[..k];
    }
  }

  /** The pages an item contributes sit right after the pages of the items before it. */
  lemma {:induction false} PagesBeforeGrow(items: seq<MergeItem>, j: nat, n: nat)
    requires j < n <= |items|
    ensures |PagesBefore(items, j)| + |Contribution(items[j])| <= |PagesBefore(items, n)|
    ensures PagesBefore(items, n)[|PagesBefore(items, j)|..|PagesBefore(items, j)| + |Contribution(items[j])|]
         == Contribution(items[j])
  {
    var a, c, b := PagesBefore(items, j), Contribution(items[j]), PagesBefore(items, j + 1);
    assert b == a + c;
    PagesBeforeExtend(items, j + 1, n);
    SliceOfLongerPrefix(a, c, b, PagesBefore(items, n));
  }

  /** Where `b == a + c` is a prefix of `r`, the slice of `r` after `a` is `c`. */
  lemma SliceOfLongerPrefix<T>(a: seq<T>, c: seq<T>, b: seq<T>, r: seq<T>)
    requires b == a + c && |b| <= |r| && r[..|b|] == b
    ensures |a| + |c| <= |r| && r[|a|..|a| + |c|] == c
  {
    assert r[|a|..|a| + |c|] == r[..|b|][|a|..];
  }

  lemma SliceOfPrefix<T>(p: seq<T>, q: seq<T>, lo: nat, hi: nat)
    requires lo <= hi <= |p|
    ensures (p + q)[lo..hi] == p[lo..hi]
  {
    assert forall k :: lo <= k < hi ==> (p + q)[k] == p[k];
  }

  lemma MergedPages(items: seq<MergeItem>, addBookmarks: bool)
    requires items != []
    ensures MergeRun(items, addBookmarks).result.pages == PagesBefore(items, |items|)
  {
    MergeUpToDescribed(items, addBookmarks, |items|);
  }

  /**
   Every bookmark points at the first page its item contributed: the pages from its target
   on are that item's pages.
   */
  lemma BookmarksPointAtTheirItems(items: seq<MergeItem>, addBookmarks: bool, t: nat)
    requires items != []
    requires t < |MergeRun(items, addBookmarks).result.outline|
    ensures var st := MergeRun(items, addBookmarks).result;
      exists j :: 0 <= j < |items| && items[j].source.Readable?
        && st.outline[t].title == Basename(items[j].path)
        && st.outline[t].page + |items[j].source.pages| <= |st.pages|
        && st.pages[st.outline[t].page..st.outline[t].page + |items[j].source.pages|] == items[j].source.pages
  {
    var n := |items|;
    MergeUpToDescribed(items, addBookmarks, n);
    var js := BookmarkedBefore(items, addBookmarks, n);
    var j := js[t];
    PagesBeforeGrow(items, j, n);
  }

  /**
   `done` ends at the number of items plus the number of locked ones, so with a locked
   item it exceeds `total` and the last progress report is above 100%.
   */
  lemma DoneCount(items: seq<MergeItem>, addBookmarks: bool)
    requires items != []
    ensures MergeRun(items, addBookmarks).result.done == |items| + LockedBefore(items, |items|)
  {
    MergeUpToDescribed(items, addBookmarks, |items|);
  }

  /** An empty merge list is refused before anything is read. */
  lemma EmptyListRefused(addBookmarks: bool)
    ensures MergeRun([], addBookmarks) == NothingToMerge
  {
  }

  lemma {:induction false} PagesBeforeAppend(a: seq<MergeItem>, b: seq<MergeItem>, n: nat)
    requires n <= |b|
    ensures PagesBefore(a + b, |a| + n) == PagesBefore(a, |a|) + PagesBefore(b, n)
  {
    if n == 0 {
      PagesBeforePrefix(a, b, |a|);
      assert PagesBefore(b, 0) == [];
    } else {
      PagesBeforeAppend(a, b, n - 1);
      var ab := a + b;
      var c := Contribution(b[n - 1]);
      assert ab[|a| + n - 1] == b[n - 1];
      var x, y := PagesBefore(a, |a|), PagesBefore(b, n - 1);
      assert PagesBefore(ab, |a| + n) == (x + y) + c;
      assert PagesBefore(b, n) == y + c;
      assert (x + y) + c == x + (y + c);
    }
  }

  lemma {:induction false} PagesBeforePrefix(a: seq<MergeItem>, b: seq<MergeItem>, n: nat)
    requires n <= |a|
    ensures PagesBefore(a + b, n) == PagesBefore(a, n)
  {
    if n > 0 {
      PagesBeforePrefix(a, b, n - 1);
      assert (a + b)[n - 1] == a[n - 1];
    }
  }

  lemma PagesBeforeSkip(before: seq<MergeItem>, bad: MergeItem, after: seq<MergeItem>)
    requires !bad.source.Readable?
    ensures var with := before + [bad] + after;
      PagesBefore(with, |with|) == PagesBefore(before, |before|) + PagesBefore(after, |after|)
  {
    var ab := before + [bad];
    PagesBeforeConcat(ab, after);
    PagesBeforeConcat(before, [bad]);
    NoPagesFromSkipped(bad);
    var pb := PagesBefore(before, |before|);
    assert PagesBefore(ab, |ab|) == pb + [] == pb;
  }

  lemma PagesBeforeConcat(a: seq<MergeItem>, b: seq<MergeItem>)
    ensures PagesBefore(a + b, |a + b|) == PagesBefore(a, |a|) + PagesBefore(b, |b|)
  {
    PagesBeforeAppend(a, b, |b|);
    assert |a + b| == |a| + |b|;
  }

  lemma NoPagesFromSkipped(bad: MergeItem)
    requires !bad.source.Readable?
    ensures PagesBefore([bad], |[bad]|) == []
  {
    assert PagesBefore([bad], 1) == PagesBefore([bad], 0) + Contribution(bad);
  }

  /**
   A skipped item (missing, unreadable or locked) changes nothing in the merged document:
   the run goes on with the next item and writes the same pages as if the skipped one
   were not listed.
   */
  lemma SkippedItemChangesNoPages(before: seq<MergeItem>, bad: MergeItem, after: seq<MergeItem>, addBookmarks: bool)
    requires !bad.source.Readable? && before + after != []
    ensures MergeRun(before + [bad] + after, addBookmarks).result.pages
         == MergeRun(before + after, addBookmarks).result.pages
  {
    var with, without := before + [bad] + after, before + after;
    MergedPages(with, addBookmarks);
    MergedPages(without, addBookmarks);
    PagesBeforeSkip(before, bad, after);
    PagesBeforeAppend(before, after, |after|);
  }

  // ----- the events -----

  /** The progress numerators of `ev` strictly rise. */
  predicate ProgressRises(ev: seq<Event>) {
    forall i, j :: 0 <= i < j < |ev| && ev[i].Progress? && ev[j].Progress? ==> ev[i].done < ev[j].done
  }

  /** Every progress numerator of `ev` lies in `(lo, hi]`. */
  predicate ProgressWithin(ev: seq<Event>, lo: int, hi: int) {
    forall i :: 0 <= i < |ev| && ev[i].Progress? ==> lo < ev[i].done <= hi
  }

  lemma RisesConcat(a: seq<Event>, b: seq<Event>, d: nat, e: nat)
    requires ProgressRises(a) && ProgressWithin(a, -1, d)
    requires ProgressRises(b) && ProgressWithin(b, d, e) && d <= e
    ensures ProgressRises(a + b) && ProgressWithin(a + b, -1, e)
  {
    var c := a + b;
    forall i | 0 <= i < |c| && c[i].Progress? ensures -1 < c[i].done <= e {
      if i >= |a| {
        assert c[i] == b[i - |a|];
      }
    }
    forall i, j | 0 <= i < j < |c| && c[i].Progress? && c[j].Progress? ensures c[i].done < c[j].done {
      if j >= |a| {
        assert c[j] == b[j - |a|];
        if i >= |a| {
          assert c[i] == b[i - |a|];
        }
      }
    }
  }

  /** The events one item adds: its progress reports come after every earlier one, and the last event is one of them. */
  lemma StepEvents(st: MergeState, item: MergeItem, addBookmarks: bool)
    requires ProgressRises(st.events) && ProgressWithin(st.events, -1, st.done)
    ensures var next := Step(st, item, addBookmarks);
            && ProgressRises(next.events) && ProgressWithin(next.events, -1, next.done)
            && |next.events| > |st.events| && next.events[|next.events| - 1] == Progress(next.done)
  {
    var next := Step(st, item, addBookmarks);
    var d := st.done;
    var added: seq<Event>;
    match item.source {
      case Locked =>
        added := [Reading(item.path), SkippedEncrypted(item.path), Progress(d + 1), Progress(d + 2)];
        TwoReports(added, d);
      case Readable(_) =>
        var title := Basename(item.path);
        var note := if addBookmarks && item.outlineFails then [BookmarkFailed(title)] else [];
        added := [Reading(item.path)] + note + [Progress(d + 1)];
        OneReport([Reading(item.path)] + note, d);
      case _ =>
        added := [Reading(item.path), SkippedError(item.path), Progress(d + 1)];
        OneReport([Reading(item.path), SkippedError(item.path)], d);
    }
    assert next.events == st.events + added;
    RisesConcat(st.events, added, d, next.done);
  }

  /** Messages without a progress report, then the report `d + 1`. */
  lemma OneReport(msgs: seq<Event>, d: nat)
    requires forall i :: 0 <= i < |msgs| ==> !msgs[i].Progress?
    ensures ProgressRises(msgs + [Progress(d + 1)]) && ProgressWithin(msgs + [Progress(d + 1)], d, d + 1)
  {
  }

  /** Two messages without a progress report, then the reports `d + 1` and `d + 2`. */
  lemma TwoReports(ev: seq<Event>, d: nat)
    requires |ev| == 4 && !ev[0].Progress? && !ev[1].Progress? && ev[2] == Progress(d + 1) && ev[3] == Progress(d + 2)
    ensures ProgressRises(ev) && ProgressWithin(ev, d, d + 2)
  {
  }

  /**
   The progress numerators the worker emits strictly rise, none above the final count, and
   its last event reports that count.
   */
  lemma {:induction false} ProgressReports(items: seq<MergeItem>, addBookmarks: bool, n: nat)
    requires n <= |items|
    ensures var st := MergeUpTo(items, addBookmarks, n);
            && ProgressRises(st.events) && ProgressWithin(st.events, -1, st.done)
            && (n > 0 ==> st.events != [] && st.events[|st.events| - 1] == Progress(st.done))
  {
    if n > 0 {
      ProgressReports(items, addBookmarks, n - 1);
      StepEvents(MergeUpTo(items, addBookmarks, n - 1), items[n - 1], addBookmarks);
    }
  }
}
