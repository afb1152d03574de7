/**
 The behaviour of the Python built-ins on `str` that the PDF manager's core leans on:
 `strip()`, `split(sep)`, `split(sep, 1)`, `int(text)`, `str(n)`, `zfill(width)`,
 `lower()`, `endswith(...)` and `os.path.basename`.
 */
module Strings {
  import opened Wrappers

  /** `c.isspace()`: every code point that Python counts as whitespace. */
  predicate IsSpace(c: char) {
    || ('\t' <= c <= '\r')
    || ('\U{1c}' <= c <= '\U{1f}')
    || c == ' ' || c == '\U{85}' || c == '\U{a0}' || c == '\U{1680}'
    || ('\U{2000}' <= c <= '\U{200a}')
    || c == '\U{2028}' || c == '\U{2029}' || c == '\U{202f}' || c == '\U{205f}' || c == '\U{3000}'
  }

  predicate IsDigit(c: char) {
    '0' <= c <= '9'
  }

  predicate AllDigits(s: string) {
    forall i :: 0 <= i < |s| ==> IsDigit(s[i])
  }

  /** The first index at or after `i` that holds a non-space character, or `|s|`. */
  function SpanStart(s: string, i: nat): (k: nat)
    requires i <= |s|
    ensures i <= k <= |s|
    ensures k < |s| ==> !IsSpace(s[k])
    ensures forall j :: i <= j < k ==> IsSpace(s[j])
    decreases |s| - i
  {
    if i == |s| || !IsSpace(s[i]) then i else SpanStart(s, i + 1)
  }

  /** The largest `k <= j` such that `k == 0` or `s[k - 1]` is not a space. */
  function SpanEnd(s: string, j: nat): (k: nat)
    requires j <= |s|
    ensures k <= j
    ensures k > 0 ==> !IsSpace(s[k - 1])
    ensures forall m :: k <= m < j ==> IsSpace(s[m])
  {
    if j == 0 || !IsSpace(s[j - 1]) then j else SpanEnd(s, j - 1)
  }

  /** `s.strip()`: the text between the leading and the trailing whitespace. */
  function Strip(s: string): (r: string)
    ensures |r| <= |s|
    ensures r == [] || (!IsSpace(r[0]) && !IsSpace(r[|r| - 1]))
  {
    var a := SpanStart(s, 0);
    if a == |s| then [] else s[a..SpanEnd(s, |s|)]
  }

  /** `s.strip()` is empty exactly when `s` is all whitespace (or empty). */
  lemma StripBlank(s: string)
    ensures Strip(s) == [] <==> forall i :: 0 <= i < |s| ==> IsSpace(s[i])
  {
    var a := SpanStart(s, 0);
    if a < |s| {
      assert !IsSpace(s[a]);
    }
  }

  /**
   `s.strip()` is the infix of `s` between its leading and trailing whitespace: what it drops
   on either side is whitespace.
   */
  lemma StripInfix(s: string)
    ensures exists a, b ::
      && 0 <= a <= b <= |s| && Strip(s) == s[a..b]
      && (forall i :: 0 <= i < a ==> IsSpace(s[i]))
      && (forall i :: b <= i < |s| ==> IsSpace(s[i]))
  {
    var a := SpanStart(s, 0);
    if a == |s| {
      assert Strip(s) == s[a..a];
    } else {
      var b := SpanEnd(s, |s|);
      assert Strip(s) == s[a..b];
    }
  }

  /**
   What `int()` skips around a numeral. CPython skips the ASCII whitespace `\t`, `\n`, `\v`,
   `\f`, `\r` and the space, and every non-ASCII `isspace()` code point, which it first turns
   into a space. The separators U+001C to U+001F count for `isspace()` but are not skipped.
   */
  predicate IntSpace(c: char) {
    IsSpace(c) && !('\U{1c}' <= c <= '\U{1f}')
  }

  /** The first index at or after `i` that holds a character `int()` does not skip, or `|s|`. */
  function IntSpanStart(s: string, i: nat): (k: nat)
    requires i <= |s|
    ensures i <= k <= |s|
    ensures k < |s| ==> !IntSpace(s[k])
    ensures forall j :: i <= j < k ==> IntSpace(s[j])
    decreases |s| - i
  {
    if i == |s| || !IntSpace(s[i]) then i else IntSpanStart(s, i + 1)
  }

  /** The largest `k <= j` such that `k == 0` or `int()` does not skip `s[k - 1]`. */
  function IntSpanEnd(s: string, j: nat): (k: nat)
    requires j <= |s|
    ensures k <= j
    ensures k > 0 ==> !IntSpace(s[k - 1])
    ensures forall m :: k <= m < j ==> IntSpace(s[m])
  {
    if j == 0 || !IntSpace(s[j - 1]) then j else IntSpanEnd(s, j - 1)
  }

  /** The text `int()` reads: `s` without the characters it skips on either side. */
  function IntStrip(s: string): (r: string)
    ensures |r| <= |s|
    ensures r == [] || (!IntSpace(r[0]) && !IntSpace(r[|r| - 1]))
  {
    var a := IntSpanStart(s, 0);
    if a == |s| then [] else s[a..IntSpanEnd(s, |s|)]
  }

  /** `int()` cuts off one infix of `s`, and everything dropped on either side is skippable. */
  lemma IntStripInfix(s: string)
    ensures exists a, b ::
      && 0 <= a <= b <= |s| && IntStrip(s) == s[a..b]
      && (forall i :: 0 <= i < a ==> IntSpace(s[i]))
      && (forall i :: b <= i < |s| ==> IntSpace(s[i]))
  {
    var a := IntSpanStart(s, 0);
    if a == |s| {
      assert IntStrip(s) == s[a..a];
    } else {
      var b := IntSpanEnd(s, |s|);
      assert IntStrip(s) == s[a..b];
    }
  }

  /** Text without U+001C to U+001F is cut by `int()` exactly as `strip()` cuts it. */
  lemma IntStripIsStrip(s: string)
    requires forall i :: 0 <= i < |s| ==> !('\U{1c}' <= s[i] <= '\U{1f}')
    ensures IntStrip(s) == Strip(s)
  {
    IntSpansAreSpans(s, 0);
    IntSpanEndsAreSpanEnds(s, |s|);
  }

  lemma {:induction false} IntSpansAreSpans(s: string, i: nat)
    requires i <= |s|
    requires forall i :: 0 <= i < |s| ==> !('\U{1c}' <= s[i] <= '\U{1f}')
    ensures IntSpanStart(s, i) == SpanStart(s, i)
    decreases |s| - i
  {
    if i < |s| && IntSpace(s[i]) {
      IntSpansAreSpans(s, i + 1);
    }
  }

  lemma {:induction false} IntSpanEndsAreSpanEnds(s: string, j: nat)
    requires j <= |s|
    requires forall i :: 0 <= i < |s| ==> !('\U{1c}' <= s[i] <= '\U{1f}')
    ensures IntSpanEnd(s, j) == SpanEnd(s, j)
  {
    if j > 0 && IntSpace(s[j - 1]) {
      IntSpanEndsAreSpanEnds(s, j - 1);
    }
  }

  /** The index of the first `c` in `s`, or `|s|` when there is none. */
  function IndexOf(s: string, c: char): (k: nat)
    ensures k <= |s|
    ensures k < |s| ==> s[k] == c
    ensures forall i :: 0 <= i < k ==> s[i] != c
  {
    if s == [] then 0
    else if s[0] == c then 0
    else 1 + IndexOf(s[1..], c)
  }

  /** `s.split(sep)` for a one-character separator. */
  function Split(s: string, sep: char): (parts: seq<string>)
    ensures |parts| >= 1
    ensures forall k :: 0 <= k < |parts| ==> sep !in parts[k]
    decreases |s|
  {
    var k := IndexOf(s, sep);
    if k == |s| then [s] else [s[..k]] + Split(s[k + 1..], sep)
  }

  /** `sep.join(parts)`: the inverse of `Split`. */
  function Join(parts: seq<string>, sep: char): string {
    if |parts| == 0 then []
    else if |parts| == 1 then parts[0]
    else parts[0] + [sep] + Join(parts[1..], sep)
  }

  lemma SplitAtFirst(s: string, sep: char, k: nat)
    requires k == IndexOf(s, sep) && k < |s|
    ensures Split(s, sep) == [s[..k]] + Split(s[k + 1..], sep)
  {
  }

  lemma JoinCons(head: string, tail: seq<string>, sep: char)
    requires tail != []
    ensures Join([head] + tail, sep) == head + [sep] + Join(tail, sep)
  {
    assert ([head] + tail)[1..] == tail;
  }

  lemma CutAt(s: string, k: nat)
    requires k < |s|
    ensures s[..k] + [s[k]] + s[k + 1..] == s
  {
  }

  /** Splitting at every `sep` loses nothing: joining the pieces again gives the text back. */
  lemma {:induction false} JoinSplit(s: string, sep: char)
    ensures Join(Split(s, sep), sep) == s
    decreases |s|
  {
    var k := IndexOf(s, sep);
    if k < |s| {
      var rest := s[k + 1..];
      var tail := Split(rest, sep);
      calc {
        Join(Split(s, sep), sep);
      == { SplitAtFirst(s, sep, k); }
        Join([s[..k]] + tail, sep);
      == { JoinCons(s[..k], tail, sep); }
        s[..k] + [sep] + Join(tail, sep);
      == { JoinSplit(rest, sep); }
        s[..k] + [s[k]] + rest;
      == { CutAt(s, k); }
        s;
      }
    } else {
      assert Split(s, sep) == [s];
    }
  }

  /** Cutting at a separator after a separator-free head gives that head first. */
  lemma SplitAfter(h: string, t: string, sep: char)
    requires sep !in h
    ensures Split(h + [sep] + t, sep) == [h] + Split(t, sep)
  {
    var s := h + [sep] + t;
    assert forall i :: 0 <= i < |h| ==> s[i] == h[i] && h[i] != sep;
    assert s[|h|] == sep;
    assert IndexOf(s, sep) == |h|;
    assert s[..|h|] == h && s[|h| + 1..] == t;
  }

  /** Joining separator-free parts and splitting again gives the parts back. */
  lemma {:induction false} SplitJoin(parts: seq<string>, sep: char)
    requires parts != [] && forall i :: 0 <= i < |parts| ==> sep !in parts[i]
    ensures Split(Join(parts, sep), sep) == parts
    decreases |parts|
  {
    if |parts| == 1 {
      assert IndexOf(parts[0], sep) == |parts[0]|;
    } else {
      var tail := parts[1..];
      SplitJoin(tail, sep);
      SplitAfter(parts[0], Join(tail, sep), sep);
      assert parts == [parts[0]] + tail;
    }
  }

  /** `s.split(sep, 1)` when `sep` occurs in `s`: the text before and after its first occurrence. */
  function SplitFirst(s: string, sep: char): (halves: (string, string))
    requires sep in s
    ensures s == halves.0 + [sep] + halves.1
    ensures sep !in halves.0
  {
    var k := IndexOf(s, sep);
    (s[..k], s[k + 1..])
  }

  function DigitValue(c: char): nat
    requires IsDigit(c)
  {
    (c as int) - ('0' as int)
  }

  function DigitChar(d: nat): (c: char)
    requires d < 10
    ensures IsDigit(c) && DigitValue(c) == d
  {
    ('0' as int + d) as char
  }

  /** The number a string of decimal digits denotes (leading zeros allowed). */
  function DecimalValue(ds: string): nat
    requires AllDigits(ds)
  {
    if ds == [] then 0 else DecimalValue(ds[..|ds| - 1]) * 10 + DigitValue(ds[|ds| - 1])
  }

  /** Digits with single underscores between them: what `int()` accepts after the sign. */
  predicate IsGroupedDigits(s: string) {
    && |s| > 0 && IsDigit(s[0]) && IsDigit(s[|s| - 1])
    && (forall i :: 0 <= i < |s| ==> IsDigit(s[i]) || s[i] == '_')
    && (forall i :: 0 <= i < |s| - 1 ==> s[i] == '_' ==> s[i + 1] != '_')
  }

  function WithoutUnderscores(s: string): (r: string)
    ensures |r| <= |s|
    ensures (forall i :: 0 <= i < |s| ==> IsDigit(s[i]) || s[i] == '_') ==> AllDigits(r)
    ensures AllDigits(s) ==> r == s
  {
    if s == [] then []
    else (if s[0] == '_' then [] else [s[0]]) + WithoutUnderscores(s[1..])
  }

  /** The sign-free part of a stripped numeral: `t` with a leading `+` or `-` removed. */
  function Unsigned(t: string): string {
    if |t| > 0 && (t[0] == '+' || t[0] == '-') then t[1..] else t
  }

  /** The numeral grammar of `int()`, on text that is already stripped. */
  function Numeral(t: string): (r: Option<int>)
    ensures r.Some? ==> t != []
  {
    var body := Unsigned(t);
    if IsGroupedDigits(body) then
      var v: int := DecimalValue(WithoutUnderscores(body));
      Some(if t[0] == '-' then -v else v)
    else None
  }

  /**
   `int(s)` for base 10: the whitespace `IntSpace` names is skipped on either side, then an
   optional `+` or `-`, then ASCII digits with single underscores between them. `None` stands
   for `ValueError`.
   */
  function PyInt(s: string): (r: Option<int>)
    ensures r.Some? ==> Strip(s) != []
  {
    NonBlankBeforeStrip(s);
    Numeral(IntStrip(s))
  }

  /** Text that `int()` reads as a numeral holds a non-space, so `strip()` leaves something. */
  lemma NonBlankBeforeStrip(s: string)
    ensures Numeral(IntStrip(s)).Some? ==> Strip(s) != []
  {
    var t := IntStrip(s);
    if Numeral(t).Some? {
      NumeralEndsInDigit(t);
      var b := IntStripLast(s);
      StripBlank(s);
    }
  }

  lemma NumeralEndsInDigit(t: string)
    requires Numeral(t).Some?
    ensures t != [] && IsDigit(t[|t| - 1])
  {
    var u := Unsigned(t);
    assert u[|u| - 1] == t[|t| - 1];
  }

  /** The last character `int()` reads is `s[b - 1]`, for `b` where its trailing skip begins. */
  lemma IntStripLast(s: string) returns (b: nat)
    requires IntStrip(s) != []
    ensures 0 < b <= |s| && s[b - 1] == IntStrip(s)[|IntStrip(s)| - 1]
  {
    var a := IntSpanStart(s, 0);
    b := IntSpanEnd(s, |s|);
    assert a < |s|;
    var t := s[a..b];
    assert IntStrip(s) == t && t[|t| - 1] == s[b - 1];
  }

  /** `str(n)` for a natural number: its decimal digits without leading zeros. */
  function NatToString(n: nat): (s: string)
    ensures |s| >= 1 && AllDigits(s)
    ensures |s| > 1 ==> s[0] != '0'
  {
    if n < 10 then [DigitChar(n)] else NatToString(n / 10) + [DigitChar(n % 10)]
  }

  /** `str(n)` for any integer. */
  function IntToString(n: int): (s: string)
    ensures |s| >= 1
  {
    if n < 0 then "-" + NatToString(-n) else NatToString(n)
  }

  function Zeros(k: nat): (z: string)
    ensures |z| == k && AllDigits(z)
    ensures forall i :: 0 <= i < k ==> z[i] == '0'
  {
    if k == 0 then [] else Zeros(k - 1) + ['0']
  }

  /** `s.zfill(width)`: pad with zeros to `width` characters, after a leading sign if there is one. */
  function ZFill(s: string, width: int): (r: string)
    ensures |r| == if |s| >= width then |s| else width
    ensures |s| >= width ==> r == s
  {
    if |s| >= width then s
    else if |s| > 0 && (s[0] == '+' || s[0] == '-') then [s[0]] + Zeros(width - |s|) + s[1..]
    else Zeros(width - |s|) + s
  }

  lemma {:induction false} DecimalValueOfNatToString(n: nat)
    ensures DecimalValue(NatToString(n)) == n
  {
    if n >= 10 {
      DecimalValueOfNatToString(n / 10);
      var s := NatToString(n);
      assert s[..|s| - 1] == NatToString(n / 10);
    }
  }

  lemma {:induction false} DecimalValueOfZeros(k: nat)
    ensures DecimalValue(Zeros(k)) == 0
  {
    if k > 0 {
      assert Zeros(k)[..k - 1] == Zeros(k - 1);
      DecimalValueOfZeros(k - 1);
    }
  }

  /** Leading zeros do not change the value of a numeral. */
  lemma {:induction false} DecimalValueLeadingZeros(k: nat, ds: string)
    requires AllDigits(ds)
    ensures AllDigits(Zeros(k) + ds) && DecimalValue(Zeros(k) + ds) == DecimalValue(ds)
    decreases |ds|
  {
    var s := Zeros(k) + ds;
    assert AllDigits(s) by {
      forall i | 0 <= i < |s| ensures IsDigit(s[i]) {
        if i < k { assert s[i] == Zeros(k)[i]; } else { assert s[i] == ds[i - k]; }
      }
    }
    if ds == [] {
      assert s == Zeros(k);
      DecimalValueOfZeros(k);
    } else {
      assert s[..|s| - 1] == Zeros(k) + ds[..|ds| - 1];
      DecimalValueLeadingZeros(k, ds[..|ds| - 1]);
    }
  }

  lemma StripKeepsTrimmed(s: string)
    requires |s| > 0 && !IsSpace(s[0]) && !IsSpace(s[|s| - 1])
    ensures Strip(s) == s
  {
  }

  lemma IntStripKeepsTrimmed(s: string)
    requires |s| > 0 && !IsSpace(s[0]) && !IsSpace(s[|s| - 1])
    ensures IntStrip(s) == s
  {
  }

  lemma NumeralOfDigits(ds: string)
    requires |ds| > 0 && AllDigits(ds)
    ensures Numeral(ds) == Some(DecimalValue(ds) as int)
  {
    assert ds[0] != '+' && ds[0] != '-';
    assert Unsigned(ds) == ds;
    assert forall i :: 0 <= i < |ds| ==> ds[i] != '_';
    assert IsGroupedDigits(ds);
    assert WithoutUnderscores(ds) == ds;
  }

  lemma NumeralOfNegatedDigits(ds: string)
    requires |ds| > 0 && AllDigits(ds)
    ensures Numeral("-" + ds).Some? && Numeral("-" + ds).value == -(DecimalValue(ds) as int)
  {
    var t := "-" + ds;
    assert t[0] == '-';
    assert Unsigned(t) == ds;
    assert IsGroupedDigits(ds);
    assert WithoutUnderscores(ds) == ds;
    assert Numeral(t).Some?;
    assert Numeral(t).value == -(DecimalValue(ds) as int);
  }

  /** A plain numeral is read by `int()` as its value, and a numeral after `-` as its negation. */
  lemma PyIntOfNumeral(ds: string)
    requires |ds| > 0 && AllDigits(ds)
    ensures PyInt(ds) == Some(DecimalValue(ds) as int)
    ensures PyInt("-" + ds).Some? && PyInt("-" + ds).value == -(DecimalValue(ds) as int)
  {
    PyIntOfDigits(ds);
    PyIntOfNegatedDigits(ds);
  }

  lemma PyIntOfDigits(ds: string)
    requires |ds| > 0 && AllDigits(ds)
    ensures PyInt(ds) == Some(DecimalValue(ds) as int)
  {
    PyIntOfTrimmed(ds);
    NumeralOfDigits(ds);
  }

  lemma PyIntOfNegatedDigits(ds: string)
    requires |ds| > 0 && AllDigits(ds)
    ensures PyInt("-" + ds).Some? && PyInt("-" + ds).value == -(DecimalValue(ds) as int)
  {
    var t := "-" + ds;
    assert t[0] == '-' && t[|t| - 1] == ds[|ds| - 1];
    PyIntOfTrimmed(t);
    NumeralOfNegatedDigits(ds);
  }

  lemma PyIntOfTrimmed(t: string)
    requires |t| > 0 && !IsSpace(t[0]) && !IsSpace(t[|t| - 1])
    ensures PyInt(t) == Numeral(t)
  {
    IntStripKeepsTrimmed(t);
  }

  /**
   A number written with `str` and padded with `zfill` reads back with `int` as the same
   number, whatever the width: a zero-padded file index still names its index.
   */
  lemma ZFillIntRoundTrip(n: int, width: int)
    ensures PyInt(ZFill(IntToString(n), width)) == Some(n)
  {
    var m: nat := if n < 0 then -n else n;
    var ds := NatToString(m);
    var fill: nat := if |IntToString(n)| >= width then 0 else width - |IntToString(n)|;
    ZFillOfIntToString(n, width, ds, fill);
    DecimalValueOfNatToString(m);
    DecimalValueLeadingZeros(fill, ds);
    PyIntOfNumeral(Zeros(fill) + ds);
  }

  lemma ZFillOfIntToString(n: int, width: int, ds: string, fill: nat)
    requires ds == NatToString(if n < 0 then -n else n)
    requires fill == if |IntToString(n)| >= width then 0 else width - |IntToString(n)|
    ensures ZFill(IntToString(n), width) == (if n < 0 then "-" + (Zeros(fill) + ds) else Zeros(fill) + ds)
  {
    var s := IntToString(n);
    if n < 0 {
      assert s[1..] == ds;
    } else {
      assert s == ds;
      assert s[0] != '+' && s[0] != '-';
    }
  }

  /** Different numbers have different `zfill`ed decimal forms. */
  lemma ZFillIntInjective(i: int, j: int, width: int)
    requires ZFill(IntToString(i), width) == ZFill(IntToString(j), width)
    ensures i == j
  {
    ZFillIntRoundTrip(i, width);
    ZFillIntRoundTrip(j, width);
  }

  /** `c.lower()` for the ASCII letters; other characters are kept. */
  function LowerChar(c: char): char {
    if 'A' <= c <= 'Z' then (c as int + 32) as char else c
  }

  function Lower(s: string): (r: string)
    ensures |r| == |s|
    ensures forall i :: 0 <= i < |s| ==> r[i] == LowerChar(s[i])
  {
    seq(|s|, i requires 0 <= i < |s| => LowerChar(s[i]))
  }

  /**
   `lower()` leaves no upper-case letter, changes nothing but upper-case letters, turns each
   of those into its own lower-case letter, and a second call changes nothing more.
   */
  lemma LowerMeaning(s: string)
    ensures forall i :: 0 <= i < |s| ==> !('A' <= Lower(s)[i] <= 'Z')
    ensures forall i :: 0 <= i < |s| && !('A' <= s[i] <= 'Z') ==> Lower(s)[i] == s[i]
    ensures forall i :: 0 <= i < |s| && 'A' <= s[i] <= 'Z' ==> 'a' <= Lower(s)[i] <= 'z' && Lower(s)[i] as int - s[i] as int == 32
    ensures Lower(Lower(s)) == Lower(s)
  {
  }

  predicate EndsWith(s: string, suffix: string) {
    |suffix| <= |s| && s[|s| - |suffix|..] == suffix
  }

  /** `path if path.lower().endswith(".pdf") else path + ".pdf"` */
  function WithPdfSuffix(path: string): (r: string)
    ensures EndsWith(Lower(r), ".pdf")
    ensures EndsWith(Lower(path), ".pdf") ==> r == path
  {
    if EndsWith(Lower(path), ".pdf") then path
    else
      var r := path + ".pdf";
      assert Lower(r)[|r| - 4..] == ".pdf";
      r
  }

  /** A path that already ends in `.pdf` is left alone, so adding the suffix twice adds it once. */
  lemma WithPdfSuffixIdempotent(path: string)
    ensures WithPdfSuffix(WithPdfSuffix(path)) == WithPdfSuffix(path)
  {
  }

  /** `os.path.basename(path)` with `/` as the separator: what follows the last `/`. */
  function Basename(path: string): string {
    if path == [] then []
    else if path[|path| - 1] == '/' then []
    else Basename(path[..|path| - 1]) + [path[|path| - 1]]
  }

  /**
   The base name is the last component of the path: a suffix of it without `/`, preceded
   by a `/` unless it is the whole path.
   */
  lemma {:induction false} BasenameIsLastComponent(path: string)
    ensures '/' !in Basename(path)
    ensures |Basename(path)| <= |path| && path[|path| - |Basename(path)|..] == Basename(path)
    ensures |Basename(path)| < |path| ==> path[|path| - |Basename(path)| - 1] == '/'
  {
    if path != [] && path[|path| - 1] != '/' {
      var init := path[..|path| - 1];
      var last := path[|path| - 1];
      var b := Basename(init);
      BasenameIsLastComponent(init);
      assert Basename(path) == b + [last];
      assert path == init + [last];
      var from := |init| - |b|;
      assert path[from..] == init[from..] + [last];
    }
  }
}
