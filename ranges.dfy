/**
 `parse_ranges(text, total_pages)`: page-range text such as `1-3,5,7-10` becomes a list of
 inclusive, 1-based `(start, end)` pairs, each endpoint clamped into `[1, total_pages]` and
 each pair put in order.  Malformed tokens are dropped quietly.
 */
module RangeParser {
  import opened Wrappers
  import opened Strings

  /** An inclusive, 1-based page range `(start, end)`. */
  type Range = (int, int)

  /** `max(1, min(total_pages, x))` */
  function Clamp(x: int, total: int): (c: int)
    ensures c >= 1
    ensures total >= 1 ==> c <= total
    ensures 1 <= x <= total ==> c == x
    ensures total < 1 ==> c == 1
  {
    var m := if total <= x then total else x;
    if m < 1 then 1 else m
  }

  /** `min` and `max` of two clamped endpoints. */
  function Ordered(a: int, b: int): (r: Range)
    ensures r.0 <= r.1
    ensures (r.0 == a && r.1 == b) || (r.0 == b && r.1 == a)
  {
    if a > b then (b, a) else (a, b)
  }

  /**
   The pair one stripped, non-empty token gives, or `None` when the token is dropped.
   With a `-`, the text before the first `-` is the start and the rest the end; an end that
   is not an integer repeats the start.  Without a `-`, the token is a single page.
   */
  function ParseToken(part: string, total: int): (r: Option<Range>)
    ensures r.Some? ==> 1 <= r.value.0 <= r.value.1
    ensures r.Some? && total >= 1 ==> r.value.1 <= total
    ensures r.Some? && total < 1 ==> r.value == (1, 1)
  {
    if '-' in part then
      var halves := SplitFirst(part, '-');
      match PyInt(halves.0)
      case None => None
      case Some(x) =>
        var start := Clamp(x, total);
        var end := match PyInt(halves.1) case None => start case Some(y) => Clamp(y, total);
        Some(Ordered(start, end))
    else
      match PyInt(part)
      case None => None
      case Some(p) => Some((Clamp(p, total), Clamp(p, total)))
  }

  /** The pair is in order, starts at page 1 or later and, with pages, ends by the last page. */
  predicate InBounds(r: Range, total: int) {
    && 1 <= r.0 <= r.1
    && (total >= 1 ==> r.1 <= total)
    && (total < 1 ==> r == (1, 1))
  }

  /** What one comma-separated piece contributes: nothing when it is blank or dropped, else its pair. */
  function PieceRanges(piece: string, total: int): (r: seq<Range>)
    ensures |r| <= 1
    ensures forall k :: 0 <= k < |r| ==> InBounds(r[k], total)
  {
    var part := Strip(piece);
    if part == [] then []
    else match ParseToken(part, total) case None => [] case Some(p) => [p]
  }

  lemma PieceRangesOf(piece: string, total: int, part: string)
    requires part == Strip(piece)
    ensures PieceRanges(piece, total) == if part == [] then [] else
      match ParseToken(part, total) case None => [] case Some(p) => [p]
  {
  }

  /** The pairs of the first `n` pieces, piece by piece. */
  function Collected(pieces: seq<string>, total: int, n: nat): (c: seq<Range>)
    requires n <= |pieces|
    ensures |c| <= n
  {
    if n == 0 then [] else Collected(pieces, total, n - 1) + PieceRanges(pieces[n - 1], total)
  }

  /** The comma-separated pieces of the stripped text, or none when the text is blank. */
  function Pieces(text: string): seq<string> {
    var t := Strip(text);
    if t == [] then [] else Split(t, ',')
  }

  /** What `parse_ranges(text, total_pages)` returns: the pairs of the pieces, piece by piece. */
  function Ranges(text: string, total: int): seq<Range> {
    Collected(Pieces(text), total, |Pieces(text)|)
  }

  /**
   `parse_ranges`: one pass over the comma-separated tokens, stripping each, skipping blank
   ones and appending the pair of each token that parses.
   */
  method ParseRanges(text: string, total: int) returns (rngs: seq<Range>)
    ensures rngs == Ranges(text, total)
  {
    var t := Strip(text);
    if t == [] {
      assert Pieces(text) == [];
      return [];
    }
    var parts := Split(t, ',');
    assert Pieces(text) == parts;
    rngs := ParsePieces(parts, total);
  }

  /** The loop of `parse_ranges` over the comma-separated tokens. */
  method ParsePieces(parts: seq<string>, total: int) returns (rngs: seq<Range>)
    ensures rngs == Collected(parts, total, |parts|)
  {
    rngs := [];
    for i := 0 to |parts|
      invariant rngs == Collected(parts, total, i)
    {
      rngs := AppendPiece(rngs, parts[i], total);
    }
  }

  /** One pass of the loop: strip the token, skip it when blank, append its pair when it parses. */
  method AppendPiece(rngs: seq<Range>, piece: string, total: int) returns (next: seq<Range>)
    ensures next == rngs + PieceRanges(piece, total)
  {
    next := rngs;
    var part := Strip(piece);
    if part != [] {
      var pair := ParseToken(part, total);
      if pair.Some? {
        next := rngs + [pair.value];
      }
    }
    PieceRangesOf(piece, total, part);
  }

  lemma {:induction false} CollectedBounded(pieces: seq<string>, total: int, n: nat)
    requires n <= |pieces|
    ensures forall k :: 0 <= k < |Collected(pieces, total, n)| ==> InBounds(Collected(pieces, total, n)[k], total)
  {
    if n > 0 {
      CollectedBounded(pieces, total, n - 1);
      var f := Collected(pieces, total, n - 1);
      var last := PieceRanges(pieces[n - 1], total);
      ConcatInBounds(f, last, total);
      assert Collected(pieces, total, n) == f + last;
    }
  }

  lemma ConcatInBounds(f: seq<Range>, g: seq<Range>, total: int)
    requires forall k :: 0 <= k < |f| ==> InBounds(f[k], total)
    requires forall k :: 0 <= k < |g| ==> InBounds(g[k], total)
    ensures forall k :: 0 <= k < |f + g| ==> InBounds((f + g)[k], total)
  {
    forall k | 0 <= k < |f + g| ensures InBounds((f + g)[k], total) {
      if k >= |f| {
        assert (f + g)[k] == g[k - |f|];
      }
    }
  }

  lemma RangesBounded(text: string, total: int)
    ensures forall k :: 0 <= k < |Ranges(text, total)| ==> InBounds(Ranges(text, total)[k], total)
  {
    CollectedBounded(Pieces(text), total, |Pieces(text)|);
  }

  /**
   With a document of at least one page, every returned range is a non-empty range of
   pages of that document: `1 <= start <= end <= total_pages`.
   */
  lemma RangesWithinDocument(text: string, total: int)
    requires total >= 1
    ensures forall k :: 0 <= k < |Ranges(text, total)| ==>
      1 <= Ranges(text, total)[k].0 <= Ranges(text, total)[k].1 <= total
  {
    RangesBounded(text, total);
  }

  /** With no pages, the clamp `max(1, min(0, x))` turns every surviving token into `(1, 1)`. */
  lemma RangesWithoutPages(text: string, total: int)
    requires total < 1
    ensures forall k :: 0 <= k < |Ranges(text, total)| ==> Ranges(text, total)[k] == (1, 1)
  {
    RangesBounded(text, total);
  }

  /** Blank text gives no ranges; otherwise there is at most one range per comma-separated token. */
  lemma RangesCount(text: string, total: int)
    ensures Strip(text) == [] ==> Ranges(text, total) == []
    ensures Strip(text) != [] ==> |Ranges(text, total)| <= |Split(Strip(text), ',')|
  {
  }

  /** Where `a` holds no `-`, `split("-", 1)` of `a + "-" + b` gives `a` and `b` back. */
  lemma SplitAtJoinedDash(a: string, b: string)
    requires '-' !in a
    ensures '-' in a + "-" + b
    ensures SplitFirst(a + "-" + b, '-') == (a, b)
  {
    var s := a + "-" + b;
    assert s[|a|] == '-';
    var h := SplitFirst(s, '-');
    assert h.0 == s[..|a|] == a;
    assert h.1 == s[|a| + 1..] == b;
  }

  /**
   `"a-x"` with an end `x` that is not an integer reads as the token `"a"` alone: the single
   clamped page `a`, or nothing when `a` is not an integer either.
   */
  lemma BadEndIsStartAlone(a: string, x: string, total: int)
    requires '-' !in a && PyInt(x).None?
    ensures ParseToken(a + "-" + x, total) == ParseToken(a, total)
  {
    SplitAtJoinedDash(a, x);
  }

  /** `"a-b"` whose start `a` is not an integer is dropped, whatever the end `b` is. */
  lemma BadStartDrops(a: string, b: string, total: int)
    requires '-' !in a && PyInt(a).None?
    ensures ParseToken(a + "-" + b, total) == None
  {
    SplitAtJoinedDash(a, b);
  }

  /** The range from a page to itself, `"a-a"`, reads as the token `"a"` alone. */
  lemma SamePageTwice(a: string, total: int)
    requires '-' !in a
    ensures ParseToken(a + "-" + a, total) == ParseToken(a, total)
  {
    SplitAtJoinedDash(a, a);
  }

  /** With two integer ends, the order they are written in does not matter: `"a-b"` and `"b-a"` agree. */
  lemma EndsInEitherOrder(a: string, b: string, total: int)
    requires '-' !in a && '-' !in b && PyInt(a).Some? && PyInt(b).Some?
    ensures ParseToken(a + "-" + b, total) == ParseToken(b + "-" + a, total)
    ensures ParseToken(a + "-" + b, total).Some?
  {
    SplitAtJoinedDash(a, b);
    SplitAtJoinedDash(b, a);
  }
}
