/**
 Worked examples of `parse_ranges`: each fixes one branch of the token rules on a concrete
 input, from the documented `1-3,5,7-10` down to the quirks of `int()` and of the clamp.
 Each example is closed by a general lemma whose conclusion is the example's statement, so
 the concrete text only has to meet that lemma's premises.
 */
module RangeExamples {
  import opened Wrappers
  import opened Strings
  import opened RangeParser

  // ----- `int()` on concrete text -----

  lemma ReadDigits(ds: string, v: int)
    requires |ds| > 0 && AllDigits(ds) && DecimalValue(ds) as int == v
    ensures PyInt(ds) == Some(v)
  {
    PyIntOfNumeral(ds);
  }

  lemma ReadOne() ensures PyInt("1") == Some(1) { ReadDigits("1", 1); }
  lemma ReadTwo() ensures PyInt("2") == Some(2) { ReadDigits("2", 2); }
  lemma ReadThree() ensures PyInt("3") == Some(3) { ReadDigits("3", 3); }
  lemma ReadFour() ensures PyInt("4") == Some(4) { ReadDigits("4", 4); }
  lemma ReadFive() ensures PyInt("5") == Some(5) { ReadDigits("5", 5); }
  lemma ReadSeven() ensures PyInt("7") == Some(7) { ReadDigits("7", 7); }

  lemma ReadTen() ensures PyInt("10") == Some(10) {
    assert "10"[..1] == "1";
    ReadDigits("10", 10);
  }

  lemma ReadNinetyNine() ensures PyInt("99") == Some(99) {
    assert "99"[..1] == "9";
    ReadDigits("99", 99);
  }

  lemma ReadMinusTwo() ensures PyInt("-2") == Some(-2) {
    PyIntOfNumeral("2");
    assert "-" + "2" == "-2";
  }

  /** A trimmed text that `int()` rejects stays rejected. */
  lemma ReadNothing(t: string)
    requires |t| > 0 && !IsSpace(t[0]) && !IsSpace(t[|t| - 1]) && !IsGroupedDigits(Unsigned(t))
    ensures PyInt(t) == None
  {
    IntStripKeepsTrimmed(t);
  }

  lemma ReadX() ensures PyInt("x") == None {
    ReadNothing("x");
  }

  lemma ReadLetters() ensures PyInt("abc") == None {
    ReadNothing("abc");
  }

  /**
   `int("\x1c3")` raises: `int()` does not skip U+001C, although `strip()` would remove it.
   */
  lemma ReadSeparatorThree() ensures PyInt("\U{1c}3") == None {
    var t := "\U{1c}3";
    assert IntSpanStart(t, 0) == 0;
    assert IntSpanEnd(t, |t|) == |t|;
    assert IntStrip(t) == t;
    assert Unsigned(t) == t;
    assert !IsDigit(t[0]);
  }

  /** `int()` strips its argument: text around a trimmed numeral reads as the numeral. */
  lemma ReadAround(s: string, t: string, v: int)
    requires |t| > 0 && !IsSpace(t[0]) && !IsSpace(t[|t| - 1])
    requires IntStrip(s) == t && PyInt(t) == Some(v)
    ensures PyInt(s) == Some(v)
  {
    IntStripKeepsTrimmed(t);
  }

  lemma IntStripTrailingSpace(t: string)
    requires |t| > 0 && !IsSpace(t[0]) && !IsSpace(t[|t| - 1])
    ensures IntStrip(t + " ") == t
  {
    var s := t + " ";
    assert IntSpanStart(s, 0) == 0;
    assert IntSpanEnd(s, |s|) == IntSpanEnd(s, |t|) == |t|;
    assert s[..|t|] == t;
  }

  lemma IntStripLeadingSpace(t: string)
    requires |t| > 0 && !IsSpace(t[0]) && !IsSpace(t[|t| - 1])
    ensures IntStrip(" " + t) == t
  {
    var s := " " + t;
    assert IntSpanStart(s, 0) == IntSpanStart(s, 1) == 1;
    assert IntSpanEnd(s, |s|) == |s|;
    assert s[1..] == t;
  }

  /** `int("1 ")` and `int(" 3")`: the halves of a token are not stripped, but `int()` strips. */
  lemma ReadPadded()
    ensures PyInt("1 ") == Some(1) && PyInt(" 3") == Some(3)
  {
    ReadOnePadded();
    ReadThreePadded();
  }

  lemma ReadOnePadded() ensures PyInt("1 ") == Some(1) {
    IntStripTrailingSpace("1");
    assert "1" + " " == "1 ";
    ReadOne();
    ReadAround("1 ", "1", 1);
  }

  lemma ReadThreePadded() ensures PyInt(" 3") == Some(3) {
    IntStripLeadingSpace("3");
    assert " " + "3" == " 3";
    ReadThree();
    ReadAround(" 3", "3", 3);
  }

  // ----- single tokens -----

  /** A token `a-b`, `k` the first `-`, whose halves `int()` reads as `x` and `y`. */
  lemma DashToken(part: string, k: nat, total: int, x: int, y: int)
    requires k < |part| && part[k] == '-' && forall i :: 0 <= i < k ==> part[i] != '-'
    requires PyInt(part[..k]) == Some(x) && PyInt(part[k + 1..]) == Some(y)
    ensures ParseToken(part, total) == Some(Ordered(Clamp(x, total), Clamp(y, total)))
  {
    assert IndexOf(part, '-') == k;
    assert SplitFirst(part, '-') == (part[..k], part[k + 1..]);
  }

  /** A token `a-b` whose end `int()` rejects: the start stands for both endpoints. */
  lemma DashTokenBadEnd(part: string, k: nat, total: int, x: int)
    requires k < |part| && part[k] == '-' && forall i :: 0 <= i < k ==> part[i] != '-'
    requires PyInt(part[..k]) == Some(x) && PyInt(part[k + 1..]) == None
    ensures ParseToken(part, total) == Some((Clamp(x, total), Clamp(x, total)))
  {
    assert IndexOf(part, '-') == k;
    assert SplitFirst(part, '-') == (part[..k], part[k + 1..]);
  }

  /** A token without `-` that `int()` reads as `x` is the single page `x`, clamped. */
  lemma PlainToken(part: string, total: int, x: int)
    requires '-' !in part && PyInt(part) == Some(x)
    ensures ParseToken(part, total) == Some((Clamp(x, total), Clamp(x, total)))
  {
  }

  /** `"5-2"`: an inverted pair is put in order. */
  lemma InvertedPairIsSwapped() ensures ParseToken("5-2", 10) == Some((2, 5)) {
    var t := "5-2";
    assert t[..1] == "5" && t[2..] == "2";
    ReadFive();
    ReadTwo();
    DashToken(t, 1, 10, 5, 2);
  }

  /** `"3--2"`: only the first `-` splits, the end `-2` clamps to 1, and the pair is swapped. */
  lemma NegativeEndClampsAndSwaps() ensures ParseToken("3--2", 10) == Some((1, 3)) {
    var t := "3--2";
    assert t[..1] == "3" && t[2..] == "-2";
    ReadThree();
    ReadMinusTwo();
    DashToken(t, 1, 10, 3, -2);
  }

  /** `"1 - 3"`: spaces around the dash are tolerated by `int()`. */
  lemma SpacedDash() ensures ParseToken("1 - 3", 10) == Some((1, 3)) {
    var t := "1 - 3";
    assert t[..2] == "1 " && t[3..] == " 3";
    ReadPadded();
    DashToken(t, 2, 10, 1, 3);
  }

  /** `"4-x"`: an end that is not an integer repeats the start. */
  lemma BadEndRepeatsStart() ensures ParseToken("4-x", 10) == Some((4, 4)) {
    var t := "4-x";
    assert t[..1] == "4" && t[2..] == "x";
    ReadFour();
    ReadX();
    DashTokenBadEnd(t, 1, 10, 4);
  }

  /**
   `"5-\x1c3"`: the end half reaches `int()` unstripped, `int()` rejects the leading U+001C,
   and the start stands for both endpoints.
   */
  lemma SeparatorEndRepeatsStart() ensures ParseToken("5-\U{1c}3", 10) == Some((5, 5)) {
    var t := "5-\U{1c}3";
    assert t[..1] == "5" && t[2..] == "\U{1c}3";
    ReadFive();
    ReadSeparatorThree();
    DashTokenBadEnd(t, 1, 10, 5);
  }

  /** `"abc"`: a token that is not an integer is dropped. */
  lemma LettersAreDropped() ensures ParseToken("abc", 10) == None {
    assert '-' !in "abc";
    ReadLetters();
  }

  /** `"99"` with ten pages: a single page past the end clamps to the last page. */
  lemma PagePastTheEndClamps() ensures ParseToken("99", 10) == Some((10, 10)) {
    ReadNinetyNine();
    PlainToken("99", 10, 99);
  }

  /** `"7"` with no pages: `max(1, min(0, 7))` is 1. */
  lemma NoPagesGivesPageOne() ensures ParseToken("7", 0) == Some((1, 1)) {
    ReadSeven();
    PlainToken("7", 0, 7);
  }

  // ----- whole texts -----

  /** A trimmed piece contributes the pair its token parses to. */
  lemma PieceOfToken(piece: string, total: int, r: Range)
    requires |piece| > 0 && !IsSpace(piece[0]) && !IsSpace(piece[|piece| - 1])
    requires ParseToken(piece, total) == Some(r)
    ensures PieceRanges(piece, total) == [r]
  {
    StripKeepsTrimmed(piece);
  }

  lemma EmptyPiece(total: int) ensures PieceRanges("", total) == [] {
  }

  lemma JoinThree(a: string, b: string, c: string)
    ensures Join([a, b, c], ',') == a + [','] + b + [','] + c
  {
    assert [a, b, c] == [a] + [b, c] && [b, c] == [b] + [c];
    JoinCons(a, [b, c], ',');
    JoinCons(b, [c], ',');
  }

  /**
   Three comma-free tokens joined by commas, with no space at either end of the text, are
   the three pieces `parse_ranges` goes through.
   */
  lemma PiecesOfThree(a: string, b: string, c: string)
    requires ',' !in a && ',' !in b && ',' !in c
    requires a != [] && !IsSpace(a[0])
    requires c != [] ==> !IsSpace(c[|c| - 1])
    ensures Pieces(Join([a, b, c], ',')) == [a, b, c]
  {
    JoinThree(a, b, c);
    var s := a + [','] + b + [','] + c;
    assert s[0] == a[0];
    assert s[|s| - 1] == if c == [] then ',' else c[|c| - 1];
    StripKeepsTrimmed(s);
    SplitJoin([a, b, c], ',');
  }

  lemma RangesOfThreePieces(text: string, total: int, a: string, b: string, c: string)
    requires Pieces(text) == [a, b, c]
    ensures Ranges(text, total) == PieceRanges(a, total) + PieceRanges(b, total) + PieceRanges(c, total)
  {
    var ps := [a, b, c];
    assert Collected(ps, total, 1) == PieceRanges(a, total);
    assert Collected(ps, total, 2) == PieceRanges(a, total) + PieceRanges(b, total);
  }

  lemma ThreeSingleRanges(text: string, total: int, a: string, b: string, c: string, ra: Range, rb: Range, rc: Range)
    requires Pieces(text) == [a, b, c]
    requires PieceRanges(a, total) == [ra] && PieceRanges(b, total) == [rb] && PieceRanges(c, total) == [rc]
    ensures Ranges(text, total) == [ra, rb, rc]
  {
    RangesOfThreePieces(text, total, a, b, c);
  }

  lemma OneOfThreeRanges(text: string, total: int, a: string, b: string, c: string, ra: Range)
    requires Pieces(text) == [a, b, c]
    requires PieceRanges(a, total) == [ra] && PieceRanges(b, total) == [] && PieceRanges(c, total) == []
    ensures Ranges(text, total) == [ra]
  {
    RangesOfThreePieces(text, total, a, b, c);
  }

  lemma FirstPieceOfDocumentedExample() ensures PieceRanges("1-3", 10) == [(1, 3)] {
    var t := "1-3";
    assert t[..1] == "1" && t[2..] == "3";
    ReadOne();
    ReadThree();
    DashToken(t, 1, 10, 1, 3);
    PieceOfToken(t, 10, (1, 3));
  }

  lemma SecondPieceOfDocumentedExample() ensures PieceRanges("5", 10) == [(5, 5)] {
    ReadFive();
    PlainToken("5", 10, 5);
    PieceOfToken("5", 10, (5, 5));
  }

  /** A one-digit start, a dash and an end `int()` reads: the pair of the two, clamped and ordered. */
  lemma DigitDashPiece(t: string, total: int, x: int, y: int)
    requires |t| >= 3 && t[1] == '-' && !IsSpace(t[0]) && !IsSpace(t[|t| - 1])
    requires PyInt(t[..1]) == Some(x) && PyInt(t[2..]) == Some(y)
    ensures PieceRanges(t, total) == [Ordered(Clamp(x, total), Clamp(y, total))]
  {
    assert t[0] != '-';
    DashToken(t, 1, total, x, y);
    PieceOfToken(t, total, Ordered(Clamp(x, total), Clamp(y, total)));
  }

  lemma ThirdPieceOfDocumentedExample() ensures PieceRanges("7-10", 10) == [(7, 10)] {
    var t := "7-10";
    assert t[..1] == "7" && t[2..] == "10";
    ReadSeven();
    ReadTen();
    DigitDashPiece(t, 10, 7, 10);
  }

  /** The documented example: `1-3,5,7-10`, the three tokens joined by commas, over ten pages. */
  lemma DocumentedExample()
    ensures Ranges(Join(["1-3", "5", "7-10"], ','), 10) == [(1, 3), (5, 5), (7, 10)]
  {
    PiecesOfThree("1-3", "5", "7-10");
    FirstPieceOfDocumentedExample();
    SecondPieceOfDocumentedExample();
    ThirdPieceOfDocumentedExample();
    ThreeSingleRanges(Join(["1-3", "5", "7-10"], ','), 10, "1-3", "5", "7-10", (1, 3), (5, 5), (7, 10));
  }

  /** Blank text gives no ranges. */
  lemma BlankText() ensures Ranges("  ", 10) == [] {
    StripBlank("  ");
  }

  /** Empty tokens are skipped: `5,,` is just page 5. */
  lemma EmptyTokensSkipped() ensures Ranges(Join(["5", "", ""], ','), 10) == [(5, 5)] {
    PiecesOfThree("5", "", "");
    SecondPieceOfDocumentedExample();
    EmptyPiece(10);
    OneOfThreeRanges(Join(["5", "", ""], ','), 10, "5", "", "", (5, 5));
  }
}
