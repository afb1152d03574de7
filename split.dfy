/**
 `SplitWorker`: one source PDF becomes a series of numbered output files, one per page, one
 per fixed-size chunk, or one per range of a custom range text.  The model keeps the plan
 of page spans, the naming counter and the error conditions; writing the files is reduced
 to recording what each file would hold and its name.
 */
module SplitEngine {
  import opened Wrappers
  import opened Strings
  import opened Documents
  import opened RangeParser

  /** `mode`: `"each"`, `"chunk"`, and anything else is handled as custom ranges. */
  datatype Mode = Each | Chunk | Custom

  function ModeOf(mode: string): (m: Mode)
    ensures m == Each <==> mode == "each"
    ensures m == Chunk <==> mode == "chunk"
  {
    if mode == "each" then Each else if mode == "chunk" then Chunk else Custom
  }

  /** The settings `SplitWorker.__init__` stores, after its defaults and lower bounds. */
  datatype SplitConfig = SplitConfig(
    prefix: string, mode: Mode, chunk: int, rangesText: string, pad: int, startIndex: int)

  function NewSplitConfig(prefix: string, mode: string, chunkSize: int, rangesText: string,
                          pad: int, startIndex: int): (c: SplitConfig)
    ensures c.prefix == if prefix == [] then "split" else prefix
    ensures c.mode == ModeOf(mode)
    ensures c.chunk >= 1 && (chunkSize >= 1 ==> c.chunk == chunkSize)
    ensures c.pad >= 1 && (pad >= 1 ==> c.pad == pad)
    ensures c.rangesText == rangesText && c.startIndex == startIndex
  {
    SplitConfig(
      if prefix == [] then "split" else prefix,
      ModeOf(mode),
      if chunkSize < 1 then 1 else chunkSize,
      rangesText,
      if pad < 1 then 1 else pad,
      startIndex)
  }

  /** `f"{prefix}_{str(idx).zfill(pad)}.pdf"` */
  function FileName(prefix: string, idx: int, pad: int): string {
    prefix + "_" + ZFill(IntToString(idx), pad) + ".pdf"
  }

  /** Each-page mode: the spans `(p, p)` for `p = 1 .. total`. */
  function EachSpans(total: nat): (spans: seq<Range>)
    ensures |spans| == total
    ensures forall i :: 0 <= i < total ==> spans[i] == (i + 1, i + 1)
  {
    seq(total, i requires 0 <= i < total => (i + 1, i + 1))
  }

  /** `(total + k - 1) // k`, the number of chunks of size `k`. */
  function ChunkCount(total: nat, k: int): nat
    requires k >= 1
  {
    (total + k - 1) / k
  }

  function Min(a: int, b: int): int {
    if a <= b then a else b
  }

  /** Chunk mode: `[c*k + 1, min(total, (c+1)*k)]` for every chunk `c`. */
  function ChunkSpans(total: nat, k: int): (spans: seq<Range>)
    requires k >= 1
    ensures |spans| == ChunkCount(total, k)
    ensures forall c :: 0 <= c < |spans| ==> spans[c] == (c * k + 1, Min(total, (c + 1) * k))
  {
    seq(ChunkCount(total, k), c requires 0 <= c < ChunkCount(total, k) => (c * k + 1, Min(total, (c + 1) * k)))
  }

  /** The spans the worker writes, one output file each, in order. */
  function Plan(cfg: SplitConfig, total: nat): seq<Range>
    requires cfg.chunk >= 1
  {
    match cfg.mode
    case Each => EachSpans(total)
    case Chunk => ChunkSpans(total, cfg.chunk)
    case Custom => Ranges(cfg.rangesText, total)
  }

  /**
   `write_range(s1, e1)` reads `reader.pages[p]` for `p` in `range(s1 - 1, e1)`: it succeeds
   when that range is empty or ends inside the document, and raises `IndexError` otherwise.
   */
  predicate Fits(span: Range, total: nat) {
    span.1 < span.0 || span.1 <= total
  }

  /** The pages `write_range(s1, e1)` copies, when the span fits. */
  function SpanPages(pages: seq<PageRef>, span: Range): (r: seq<PageRef>)
    requires 1 <= span.0 && Fits(span, |pages|)
    ensures span.1 < span.0 ==> r == []
    ensures span.0 <= span.1 ==> |r| == span.1 - span.0 + 1
    ensures forall i :: 0 <= i < |r| ==> r[i] == pages[span.0 - 1 + i]
  {
    if span.1 < span.0 then [] else pages[span.0 - 1..span.1]
  }

  /**
   One written file: the counter value `idx` it was written under (its name is
   `FileName(prefix, idx, pad)`), the pages it holds and the span it was written for.
   */
  datatype OutFile = OutFile(idx: int, pages: seq<PageRef>, span: Range)

  datatype SplitError =
    | SourceMissing   // the source path does not exist
    | CannotDecrypt   // encrypted, and `decrypt("")` raised
    | NoValidRanges   // custom mode and `parse_ranges` returned nothing
    | Crashed         // an exception reported as a traceback

  /**
   What a run leaves behind: the files written, in order; the progress numerators emitted
   after each file (the page, the chunk's last page or the range's ordinal); and the error
   reported, or `None` when `finished_ok` is emitted.
   */
  datatype SplitOutcome = SplitOutcome(files: seq<OutFile>, marks: seq<int>, error: Option<SplitError>)

  /** Every span starts at page 1 or later. */
  predicate FromPageOne(spans: seq<Range>) {
    forall i :: 0 <= i < |spans| ==> 1 <= spans[i].0
  }

  /** The first `n` spans fit the document. */
  predicate FitsBefore(spans: seq<Range>, n: nat, total: nat) {
    forall i :: 0 <= i < n && i < |spans| ==> Fits(spans[i], total)
  }

  /** The number of leading spans that fit: the file index at which `write_range` raises, if any. */
  function FitPrefix(spans: seq<Range>, total: nat): (k: nat)
    ensures k <= |spans|
    ensures forall i :: 0 <= i < k ==> Fits(spans[i], total)
    ensures k < |spans| ==> !Fits(spans[k], total)
  {
    if spans == [] then 0
    else if !Fits(spans[0], total) then 0
    else 1 + FitPrefix(spans[1..], total)
  }

  /** The `n`-th file the worker writes for span `span`, the counter standing at `startIndex + n`. */
  function FileFor(cfg: SplitConfig, pages: seq<PageRef>, span: Range, n: nat): OutFile
    requires 1 <= span.0 && Fits(span, |pages|)
  {
    OutFile(cfg.startIndex + n, SpanPages(pages, span), span)
  }

  /** The first `n` files of the plan. */
  function Files(cfg: SplitConfig, pages: seq<PageRef>, spans: seq<Range>, n: nat): (fs: seq<OutFile>)
    requires n <= |spans| && FromPageOne(spans)
    requires FitsBefore(spans, n, |pages|)
    ensures |fs| == n
    ensures forall i :: 0 <= i < n ==> fs[i] == FileFor(cfg, pages, spans[i], i)
  {
    seq(n, i requires 0 <= i < n => FileFor(cfg, pages, spans[i], i))
  }

  /** The progress numerators after the first `n` files. */
  function Marks(mode: Mode, spans: seq<Range>, n: nat): (ms: seq<int>)
    requires n <= |spans|
    ensures |ms| == n
    ensures forall i :: 0 <= i < n ==> ms[i] == if mode == Custom then i + 1 else spans[i].1
  {
    seq(n, i requires 0 <= i < n => if mode == Custom then i + 1 else spans[i].1)
  }

  lemma PlanFromPageOne(cfg: SplitConfig, total: nat)
    requires cfg.chunk >= 1
    ensures FromPageOne(Plan(cfg, total))
  {
    if cfg.mode == Custom {
      RangesBounded(cfg.rangesText, total);
    }
  }

  /** What `SplitWorker.run` leaves behind for a configuration and a source. */
  function SplitRun(cfg: SplitConfig, src: Source): SplitOutcome
    requires cfg.chunk >= 1
  {
    match src
    case Missing => SplitOutcome([], [], Some(SourceMissing))
    case Unreadable => SplitOutcome([], [], Some(Crashed))
    case Locked => SplitOutcome([], [], Some(CannotDecrypt))
    case Readable(pages) =>
      var spans := Plan(cfg, |pages|);
      if cfg.mode == Custom && spans == [] then SplitOutcome([], [], Some(NoValidRanges))
      else
        PlanFromPageOne(cfg, |pages|);
        Written(cfg, pages, spans)
  }

  /**
   The files written for `spans`, one after the other, up to the first span that does not
   fit the document, where `IndexError` ends the run.
   */
  function Written(cfg: SplitConfig, pages: seq<PageRef>, spans: seq<Range>): SplitOutcome
    requires FromPageOne(spans)
  {
    var k := FitPrefix(spans, |pages|);
    SplitOutcome(Files(cfg, pages, spans, k), Marks(cfg.mode, spans, k),
                 if k == |spans| then None else Some(Crashed))
  }

  /**
   `write_range(s1, e1)`: copy `reader.pages[p]` for `p` in `range(s1 - 1, e1)` into a new
   writer, or report the `IndexError` that the first page past the end raises.
   */
  method WriteRange(pages: seq<PageRef>, s1: int, e1: int) returns (ok: bool, copied: seq<PageRef>)
    requires 1 <= s1
    ensures ok <==> Fits((s1, e1), |pages|)
    ensures ok ==> copied == SpanPages(pages, (s1, e1))
  {
    copied := [];
    var p := s1 - 1;
    while p < e1
      invariant s1 - 1 <= p && (p == s1 - 1 || p <= e1)
      invariant p > s1 - 1 ==> p <= |pages|
      invariant |copied| == p - (s1 - 1)
      invariant forall j :: 0 <= j < |copied| ==> copied[j] == pages[s1 - 1 + j]
    {
      if p >= |pages| {
        return false, copied;
      }
      copied := copied + [pages[p]];
      p := p + 1;
    }
    ok := true;
  }

  lemma FilesStep(cfg: SplitConfig, pages: seq<PageRef>, spans: seq<Range>, n: nat)
    requires n < |spans| && FromPageOne(spans)
    requires FitsBefore(spans, n + 1, |pages|)
    ensures Files(cfg, pages, spans, n + 1) == Files(cfg, pages, spans, n) + [FileFor(cfg, pages, spans[n], n)]
    ensures Marks(cfg.mode, spans, n + 1) == Marks(cfg.mode, spans, n) + [if cfg.mode == Custom then n + 1 else spans[n].1]
  {
  }

  /**
   Write one output file per span of `spans`, in order, with the counter `idx` advancing
   by one per file; stop at the first span that does not fit the document.
   */
  method WriteAll(cfg: SplitConfig, pages: seq<PageRef>, spans: seq<Range>) returns (out: SplitOutcome)
    requires FromPageOne(spans)
    ensures out == Written(cfg, pages, spans)
  {
    var idx := cfg.startIndex;
    var files: seq<OutFile> := [];
    var marks: seq<int> := [];
    var i := 0;
    ghost var k := FitPrefix(spans, |pages|);
    while i < |spans|
      invariant 0 <= i <= k
      invariant idx == cfg.startIndex + i
      invariant files == Files(cfg, pages, spans, i)
      invariant marks == Marks(cfg.mode, spans, i)
    {
      var s, e := spans[i].0, spans[i].1;
      var ok, copied := WriteRange(pages, s, e);
      if !ok {
        return SplitOutcome(files, marks, Some(Crashed));
      }
      FilesStep(cfg, pages, spans, i);
      files := files + [OutFile(idx, copied, (s, e))];
      idx := idx + 1;
      marks := marks + [if cfg.mode == Custom then i + 1 else e];
      i := i + 1;
    }
    out := SplitOutcome(files, marks, None);
  }

  /**
   `SplitWorker.run`: check that the source exists and opens (decrypting with the empty
   password if needed), build the plan for the mode, refuse an empty custom plan before
   writing anything, then write the files.
   */
  method Run(cfg: SplitConfig, src: Source) returns (out: SplitOutcome)
    requires cfg.chunk >= 1
    ensures out == SplitRun(cfg, src)
  {
    match src {
      case Missing => return SplitOutcome([], [], Some(SourceMissing));
      case Unreadable => return SplitOutcome([], [], Some(Crashed));
      case Locked => return SplitOutcome([], [], Some(CannotDecrypt));
      case Readable(pages) =>
        var total := |pages|;
        var spans: seq<Range>;
        if cfg.mode == Each {
          spans := EachSpans(total);
        } else if cfg.mode == Chunk {
          spans := ChunkSpans(total, cfg.chunk);
        } else {
          spans := ParseRanges(cfg.rangesText, total);
          if spans == [] {
            return SplitOutcome([], [], Some(NoValidRanges));
          }
        }
        PlanFromPageOne(cfg, total);
        out := WriteAll(cfg, pages, spans);
    }
  }

  // ----- the span plans -----

  /** Consecutive spans meet: each starts one page after the previous one ends. */
  predicate Contiguous(spans: seq<Range>) {
    forall c :: 0 <= c < |spans| - 1 ==> spans[c + 1].0 == spans[c].1 + 1
  }

  /**
   The spans cover pages `1 .. total` in order, without gaps or overlaps, and none of them
   is empty.
   */
  predicate Tiles(spans: seq<Range>, total: nat) {
    && (spans == [] <==> total == 0)
    && (spans != [] ==> spans[0].0 == 1 && spans[|spans| - 1].1 == total)
    && Contiguous(spans)
    && (forall c :: 0 <= c < |spans| ==> spans[c].0 <= spans[c].1)
  }

  /** Each-page mode writes one file per page, pages `1 .. total` in order. */
  lemma EachSpansTile(total: nat)
    ensures Tiles(EachSpans(total), total)
  {
  }

  /** `c < ceil(total / k)` exactly when chunk `c` starts inside the document. */
  lemma ChunkStartsInside(total: nat, k: int, c: nat)
    requires k >= 1
    ensures c < ChunkCount(total, k) <==> c * k < total
  {
    var m := ChunkCount(total, k);
    assert m * k <= total + k - 1 < (m + 1) * k;
    if c < m {
      assert c * k <= (m - 1) * k by { MulLeq(c, m - 1, k); }
    } else {
      assert m * k <= c * k by { MulLeq(m, c, k); }
    }
  }

  lemma MulLeq(a: int, b: int, k: int)
    requires a <= b && k >= 0
    ensures a * k <= b * k
  {
    assert b * k - a * k == (b - a) * k;
  }

  /**
   Chunk mode with `k = max(1, chunk_size)`: `ceil(total / k)` spans that tile the document,
   every one but the last holding exactly `k` pages.
   */
  lemma ChunkSpansTile(total: nat, k: int)
    requires k >= 1
    ensures Tiles(ChunkSpans(total, k), total)
    ensures forall c :: 0 <= c < |ChunkSpans(total, k)| - 1 ==>
      ChunkSpans(total, k)[c].1 - ChunkSpans(total, k)[c].0 + 1 == k
    ensures |ChunkSpans(total, k)| > 0 ==> 1 <= ChunkSpans(total, k)[|ChunkSpans(total, k)| - 1].1 - ChunkSpans(total, k)[|ChunkSpans(total, k)| - 1].0 + 1 <= k
  {
    var spans := ChunkSpans(total, k);
    var m := |spans|;
    forall c | 0 <= c < m ensures spans[c].0 <= spans[c].1 && spans[c].1 - spans[c].0 + 1 <= k {
      ChunkStartsInside(total, k, c);
    }
    forall c | 0 <= c < m - 1
      ensures spans[c + 1].0 == spans[c].1 + 1 && spans[c].1 - spans[c].0 + 1 == k
    {
      ChunkStartsInside(total, k, c + 1);
    }
    if m == 0 {
      if total > 0 {
        ChunkStartsInside(total, k, 0);
      }
    } else {
      ChunkStartsInside(total, k, m);
      assert m * k >= total;
    }
  }

  // ----- what a run writes -----

  /** The pages of the files, concatenated. */
  function PagesOf(fs: seq<OutFile>): seq<PageRef> {
    if fs == [] then [] else PagesOf(fs[..|fs| - 1]) + fs[|fs| - 1].pages
  }

  lemma PagesOfSnoc(fs: seq<OutFile>, f: OutFile)
    ensures PagesOf(fs + [f]) == PagesOf(fs) + f.pages
  {
    assert (fs + [f])[..|fs|] == fs;
  }

  lemma PagesOfGrow(fs: seq<OutFile>, f: OutFile, gs: seq<OutFile>, ps: seq<PageRef>)
    requires gs == fs + [f] && PagesOf(fs) == ps
    ensures PagesOf(gs) == ps + f.pages
  {
    PagesOfSnoc(fs, f);
  }

  /** The pages of the first `n` spans, concatenated. */
  function SpanPagesUpTo(pages: seq<PageRef>, spans: seq<Range>, n: nat): seq<PageRef>
    requires n <= |spans| && FromPageOne(spans)
    requires FitsBefore(spans, n, |pages|)
  {
    if n == 0 then [] else SpanPagesUpTo(pages, spans, n - 1) + SpanPages(pages, spans[n - 1])
  }

  lemma {:induction false} PagesOfFiles(cfg: SplitConfig, pages: seq<PageRef>, spans: seq<Range>, n: nat)
    requires n <= |spans| && FromPageOne(spans)
    requires FitsBefore(spans, n, |pages|)
    ensures PagesOf(Files(cfg, pages, spans, n)) == SpanPagesUpTo(pages, spans, n)
  {
    if n > 0 {
      var p := n - 1;
      assert p + 1 == n;
      PagesOfFiles(cfg, pages, spans, p);
      FilesStep(cfg, pages, spans, p);
      var f := FileFor(cfg, pages, spans[p], p);
      PagesOfGrow(Files(cfg, pages, spans, p), f, Files(cfg, pages, spans, n), SpanPagesUpTo(pages, spans, p));
    }
  }

  /** Tiling spans all lie inside the document. */
  lemma TilesFit(spans: seq<Range>, total: nat)
    requires Tiles(spans, total)
    ensures forall i :: 0 <= i < |spans| ==> 1 <= spans[i].0 && spans[i].1 <= total
  {
    forall i | 0 <= i < |spans| ensures 1 <= spans[i].0 && spans[i].1 <= total {
      SpanStartsGrow(spans, i);
      SpanEndsBounded(spans, total, i);
    }
  }

  lemma {:induction false} SpansCoverPrefix(pages: seq<PageRef>, spans: seq<Range>, n: nat)
    requires Tiles(spans, |pages|) && n <= |spans|
    requires forall i :: 0 <= i < |spans| ==> 1 <= spans[i].0 && spans[i].1 <= |pages|
    ensures SpanPagesUpTo(pages, spans, n) == pages[..if n == 0 then 0 else spans[n - 1].1]
  {
    if n > 0 {
      SpansCoverPrefix(pages, spans, n - 1);
      var before := if n - 1 == 0 then 0 else spans[n - 2].1;
      assert spans[n - 1].0 - 1 == before;
      assert pages[..before] + pages[before..spans[n - 1].1] == pages[..spans[n - 1].1];
    }
  }

  /** When every span fits, the run writes them all. */
  lemma {:induction false} FitPrefixAll(spans: seq<Range>, total: nat)
    requires forall i :: 0 <= i < |spans| ==> Fits(spans[i], total)
    ensures FitPrefix(spans, total) == |spans|
  {
    if spans != [] {
      FitPrefixAll(spans[1..], total);
    }
  }

  lemma {:induction false} SpanStartsGrow(spans: seq<Range>, i: nat)
    requires Contiguous(spans) && i < |spans|
    requires forall c :: 0 <= c < |spans| ==> spans[c].0 <= spans[c].1
    ensures spans[0].0 + i <= spans[i].0
  {
    if i > 0 {
      SpanStartsGrow(spans, i - 1);
    }
  }

  lemma {:induction false} SpanEndsBounded(spans: seq<Range>, total: nat, i: nat)
    requires Tiles(spans, total) && i < |spans|
    ensures spans[i].1 <= total
    decreases |spans| - i
  {
    if i < |spans| - 1 {
      SpanEndsBounded(spans, total, i + 1);
    }
  }

  /** Spans that all fit are all written: file `i` holds the pages of span `i`. */
  lemma WrittenWhenAllFit(cfg: SplitConfig, pages: seq<PageRef>, spans: seq<Range>)
    requires FromPageOne(spans) && forall i :: 0 <= i < |spans| ==> spans[i].1 <= |pages|
    ensures Written(cfg, pages, spans).error == None
    ensures |Written(cfg, pages, spans).files| == |spans|
    ensures Written(cfg, pages, spans).marks == Marks(cfg.mode, spans, |spans|)
    ensures forall i :: 0 <= i < |spans| ==>
      Written(cfg, pages, spans).files[i] == OutFile(cfg.startIndex + i, SpanPages(pages, spans[i]), spans[i])
  {
    FitPrefixAll(spans, |pages|);
  }

  /** Spans that tile the document are all written, and the files hold it page for page. */
  lemma WrittenTiling(cfg: SplitConfig, pages: seq<PageRef>, spans: seq<Range>)
    requires Tiles(spans, |pages|)
    ensures FromPageOne(spans)
    ensures Written(cfg, pages, spans).error == None
    ensures |Written(cfg, pages, spans).files| == |spans|
    ensures PagesOf(Written(cfg, pages, spans).files) == pages
  {
    TilesFit(spans, |pages|);
    FitPrefixAll(spans, |pages|);
    PagesOfFiles(cfg, pages, spans, |spans|);
    SpansCoverPrefix(pages, spans, |spans|);
    if spans == [] {
      assert pages == [];
    } else {
      assert pages[..spans[|spans| - 1].1] == pages;
    }
  }

  /**
   Each-page and chunk modes never fail on a readable source: they write one file per
   span and, read in order, the files hold the whole document, page for page.
   */
  lemma SplitReassembles(cfg: SplitConfig, pages: seq<PageRef>)
    requires cfg.chunk >= 1 && cfg.mode != Custom
    ensures SplitRun(cfg, Readable(pages)).error == None
    ensures |SplitRun(cfg, Readable(pages)).files| == |Plan(cfg, |pages|)|
    ensures PagesOf(SplitRun(cfg, Readable(pages)).files) == pages
  {
    var spans := if cfg.mode == Each then EachSpans(|pages|) else ChunkSpans(|pages|, cfg.chunk);
    if cfg.mode == Each { EachSpansTile(|pages|); } else { ChunkSpansTile(|pages|, cfg.chunk); }
    SplitRunWritesPlan(cfg, pages);
    WrittenTiling(cfg, pages, spans);
  }

  /** A readable source, unless custom mode parsed nothing, gets the files its plan writes. */
  lemma SplitRunWritesPlan(cfg: SplitConfig, pages: seq<PageRef>)
    requires cfg.chunk >= 1 && (cfg.mode != Custom || Plan(cfg, |pages|) != [])
    ensures FromPageOne(Plan(cfg, |pages|))
    ensures SplitRun(cfg, Readable(pages)) == Written(cfg, pages, Plan(cfg, |pages|))
  {
    var spans := Plan(cfg, |pages|);
    PlanFromPageOne(cfg, |pages|);
    assert !(cfg.mode == Custom && spans == []);
    var out := Written(cfg, pages, spans);
    assert SplitRun(cfg, Readable(pages)) == out;
  }

  /** Each-page mode: file `i` holds exactly page `i + 1`. */
  lemma EachPageFiles(cfg: SplitConfig, pages: seq<PageRef>)
    requires cfg.chunk >= 1 && cfg.mode == Each
    ensures var out := SplitRun(cfg, Readable(pages));
      |out.files| == |pages| && forall i :: 0 <= i < |pages| ==> out.files[i].pages == [pages[i]]
  {
    var spans := EachSpans(|pages|);
    assert Plan(cfg, |pages|) == spans;
    SplitRunWritesPlan(cfg, pages);
    WrittenWhenAllFit(cfg, pages, spans);
    var out := Written(cfg, pages, spans);
    assert SplitRun(cfg, Readable(pages)) == out;
    EachFileHoldsItsPage(cfg, pages, out.files);
  }

  lemma EachFileHoldsItsPage(cfg: SplitConfig, pages: seq<PageRef>, files: seq<OutFile>)
    requires |files| == |pages|
    requires forall i :: 0 <= i < |pages| ==>
      files[i] == OutFile(cfg.startIndex + i, SpanPages(pages, EachSpans(|pages|)[i]), EachSpans(|pages|)[i])
    ensures forall i :: 0 <= i < |pages| ==> files[i].pages == [pages[i]]
  {
    forall i | 0 <= i < |pages| ensures files[i].pages == [pages[i]] {
      assert EachSpans(|pages|)[i] == (i + 1, i + 1);
    }
  }

  /** Custom mode with nothing parsed reports the error before any file is written. */
  lemma CustomWithoutRanges(cfg: SplitConfig, pages: seq<PageRef>)
    requires cfg.chunk >= 1 && cfg.mode == Custom && Ranges(cfg.rangesText, |pages|) == []
    ensures SplitRun(cfg, Readable(pages)) == SplitOutcome([], [], Some(NoValidRanges))
  {
  }

  /**
   Custom mode on a document with pages: one file per parsed range, in order, file `i`
   holding pages `s_i .. e_i` of the document.
   */
  lemma CustomFiles(cfg: SplitConfig, pages: seq<PageRef>)
    requires cfg.chunk >= 1 && cfg.mode == Custom && |pages| >= 1
    requires Ranges(cfg.rangesText, |pages|) != []
    ensures var out := SplitRun(cfg, Readable(pages));
      var rs := Ranges(cfg.rangesText, |pages|);
      && out.error == None
      && |out.files| == |rs|
      && forall i :: 0 <= i < |rs| ==>
           1 <= rs[i].0 <= rs[i].1 <= |pages| && out.files[i].pages == pages[rs[i].0 - 1..rs[i].1]
  {
    var rs := Ranges(cfg.rangesText, |pages|);
    RangesWithinDocument(cfg.rangesText, |pages|);
    SplitRunWritesPlan(cfg, pages);
    WrittenWhenAllFit(cfg, pages, rs);
  }

  /**
   Custom mode on a document without pages: every range is `(1, 1)`, so the first
   `write_range` raises `IndexError` and nothing is written.
   */
  lemma CustomOnEmptyDocument(cfg: SplitConfig)
    requires cfg.chunk >= 1 && cfg.mode == Custom && Ranges(cfg.rangesText, 0) != []
    ensures SplitRun(cfg, Readable([])) == SplitOutcome([], [], Some(Crashed))
  {
    RangesWithoutPages(cfg.rangesText, 0);
    assert FitPrefix(Ranges(cfg.rangesText, 0), 0) == 0;
  }

  /** Nothing is written when the source is missing, unreadable or locked. */
  lemma UnusableSource(cfg: SplitConfig, src: Source)
    requires cfg.chunk >= 1 && !src.Readable?
    ensures SplitRun(cfg, src).files == [] && SplitRun(cfg, src).error.Some?
    ensures SplitRun(cfg, src).error.value == match src
      case Missing => SourceMissing case Unreadable => Crashed case Locked => CannotDecrypt
  {
  }

  /** The name of a written file inside the output directory. */
  function NameOf(cfg: SplitConfig, f: OutFile): string {
    FileName(cfg.prefix, f.idx, cfg.pad)
  }

  /**
   The counter starts at `start_index` and grows by one per written file, whatever the
   mode: file `i` is written under `start_index + i`.
   */
  lemma FileNumbering(cfg: SplitConfig, src: Source)
    requires cfg.chunk >= 1
    ensures var fs := SplitRun(cfg, src).files;
      forall i :: 0 <= i < |fs| ==> fs[i].idx == cfg.startIndex + i
  {
  }

  lemma FileNameInjective(prefix: string, i: int, j: int, pad: int)
    requires FileName(prefix, i, pad) == FileName(prefix, j, pad)
    ensures i == j
  {
    var zi, zj := ZFill(IntToString(i), pad), ZFill(IntToString(j), pad);
    var a, b := prefix + "_" + zi + ".pdf", prefix + "_" + zj + ".pdf";
    assert |zi| == |zj|;
    assert zi == a[|prefix| + 1..|a| - 4];
    assert zj == b[|prefix| + 1..|b| - 4];
    ZFillIntInjective(i, j, pad);
  }

  /** No two files of one run get the same name, so none overwrites another. */
  lemma FileNamesDistinct(cfg: SplitConfig, src: Source)
    requires cfg.chunk >= 1
    ensures var fs := SplitRun(cfg, src).files;
      forall i, j :: 0 <= i < j < |fs| ==> NameOf(cfg, fs[i]) != NameOf(cfg, fs[j])
  {
    var fs := SplitRun(cfg, src).files;
    FileNumbering(cfg, src);
    forall i, j | 0 <= i < j < |fs| ensures NameOf(cfg, fs[i]) != NameOf(cfg, fs[j]) {
      if NameOf(cfg, fs[i]) == NameOf(cfg, fs[j]) {
        FileNameInjective(cfg.prefix, fs[i].idx, fs[j].idx, cfg.pad);
      }
    }
  }

  /**
   The number in a file name is the counter padded with zeros to at least `pad` digits,
   and it reads back as the counter.
   */
  lemma FileNumberReadsBack(prefix: string, idx: int, pad: int)
    ensures |ZFill(IntToString(idx), pad)| >= pad
    ensures PyInt(ZFill(IntToString(idx), pad)) == Some(idx)
  {
    ZFillIntRoundTrip(idx, pad);
  }

  /**
   A complete run ends its progress at 100%: the last numerator is the page count in
   each-page and chunk modes and the number of ranges in custom mode.
   */
  lemma ProgressCompletes(cfg: SplitConfig, pages: seq<PageRef>)
    requires cfg.chunk >= 1
    requires SplitRun(cfg, Readable(pages)).error == None && SplitRun(cfg, Readable(pages)).files != []
    ensures var out := SplitRun(cfg, Readable(pages));
      out.marks[|out.marks| - 1] == if cfg.mode == Custom then |out.files| else |pages|
  {
    if cfg.mode == Each { EachSpansTile(|pages|); }
    if cfg.mode == Chunk { ChunkSpansTile(|pages|, cfg.chunk); }
  }
}
