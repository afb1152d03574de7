/**
 `natural_key(s)`: the sort key of a file name for the "by name" orders of the merge list.
 The name is cut into maximal runs of digits and of other characters
 (`re.findall(r"\d+|\D+", s)`); a run of digits becomes its number and any other run its
 lower-case text.  Python compares two keys element by element, as lists.
 */
module NaturalKey {
  import opened Wrappers
  import opened Strings

  /** One element of a key: the value of a digit run, or a lower-cased text run. */
  datatype Part = Num(value: nat) | Text(text: string)

  /** The end of the run that starts at 0, looking from `i` on: the first index whose class differs. */
  function RunEnd(s: string, i: nat): (k: nat)
    requires 1 <= i <= |s|
    ensures i <= k <= |s|
    decreases |s| - i
  {
    if i < |s| && IsDigit(s[i]) == IsDigit(s[0]) then RunEnd(s, i + 1) else i
  }

  /** `re.findall(r"\d+|\D+", s)`: the maximal runs of `s`, left to right. */
  function Runs(s: string): seq<string>
    decreases |s|
  {
    if s == [] then [] else
      var k := RunEnd(s, 1);
      [s[..k]] + Runs(s[k..])
  }

  /** The key element of one run: `int(t) if t.isdigit() else t.lower()`. */
  function PartOf(t: string): Part {
    if t != [] && AllDigits(t) then Num(DecimalValue(t)) else Text(Lower(t))
  }

  /** `natural_key(s)` */
  function Key(s: string): (key: seq<Part>)
    ensures |key| == |Runs(s)|
    ensures forall i :: 0 <= i < |key| ==> key[i] == PartOf(Runs(s)[i])
  {
    seq(|Runs(s)|, i requires 0 <= i < |Runs(s)| => PartOf(Runs(s)[i]))
  }

  function Concat(parts: seq<string>): string {
    if parts == [] then [] else parts[0] + Concat(parts[1..])
  }

  /** A non-empty string all of whose characters are digits, or all not. */
  predicate Uniform(t: string) {
    t != [] && forall j :: 0 <= j < |t| ==> IsDigit(t[j]) == IsDigit(t[0])
  }

  /** Two non-empty strings that start with characters of different classes. */
  predicate Differ(a: string, b: string) {
    a != [] && b != [] && IsDigit(a[0]) != IsDigit(b[0])
  }

  // ----- the runs -----

  lemma {:induction false} RunEndFacts(s: string, i: nat)
    requires 1 <= i <= |s|
    requires forall j :: 0 <= j < i ==> IsDigit(s[j]) == IsDigit(s[0])
    ensures forall j :: 0 <= j < RunEnd(s, i) ==> IsDigit(s[j]) == IsDigit(s[0])
    ensures RunEnd(s, i) < |s| ==> IsDigit(s[RunEnd(s, i)]) != IsDigit(s[0])
    decreases |s| - i
  {
    if i < |s| && IsDigit(s[i]) == IsDigit(s[0]) {
      RunEndFacts(s, i + 1);
    }
  }

  /**
   The runs spell the name, each is non-empty and of one class, and neighbouring runs are
   of different classes: the runs are as long as they can be.
   */
  lemma {:induction false} RunsSplit(s: string)
    ensures Concat(Runs(s)) == s
    ensures forall i :: 0 <= i < |Runs(s)| ==> Uniform(Runs(s)[i])
    ensures forall i :: 0 <= i < |Runs(s)| - 1 ==> Differ(Runs(s)[i], Runs(s)[i + 1])
  {
    RunsSpell(s);
    RunsUniform(s);
    RunsDiffer(s);
  }

  /** The first run: as long as the characters keep the class of the first one. */
  lemma RunsHead(s: string)
    requires s != []
    ensures var k := RunEnd(s, 1);
      && Runs(s) == [s[..k]] + Runs(s[k..])
      && Uniform(s[..k])
      && (k < |s| ==> IsDigit(s[k]) != IsDigit(s[0]))
  {
    RunEndFacts(s, 1);
  }

  lemma {:induction false} RunsSpell(s: string)
    ensures Concat(Runs(s)) == s
    decreases |s|
  {
    if s != [] {
      var k := RunEnd(s, 1);
      RunsHead(s);
      RunsSpell(s[k..]);
      var runs := Runs(s);
      assert runs[1..] == Runs(s[k..]);
      assert Concat(runs) == s[..k] + Concat(Runs(s[k..]));
      assert s == s[..k] + s[k..];
    }
  }

  lemma {:induction false} RunsUniform(s: string)
    ensures forall i :: 0 <= i < |Runs(s)| ==> Uniform(Runs(s)[i])
    decreases |s|
  {
    if s != [] {
      var k := RunEnd(s, 1);
      RunsHead(s);
      RunsUniform(s[k..]);
      var runs, rest := Runs(s), Runs(s[k..]);
      forall i | 0 <= i < |runs| ensures Uniform(runs[i]) {
        if i > 0 {
          assert runs[i] == rest[i - 1];
        }
      }
    }
  }

  /** The first run starts with the first character. */
  lemma RunsStart(s: string)
    requires s != []
    ensures Runs(s) != [] && Runs(s)[0] != [] && Runs(s)[0][0] == s[0]
  {
    RunsHead(s);
  }

  lemma {:induction false} RunsDiffer(s: string)
    ensures forall i :: 0 <= i < |Runs(s)| - 1 ==> Differ(Runs(s)[i], Runs(s)[i + 1])
    decreases |s|
  {
    if s != [] {
      var k := RunEnd(s, 1);
      RunsHead(s);
      RunsDiffer(s[k..]);
      var runs, rest := Runs(s), Runs(s[k..]);
      if rest != [] {
        RunsStart(s[k..]);
        assert runs[1] == rest[0];
      }
      forall i | 0 <= i < |runs| - 1 ensures Differ(runs[i], runs[i + 1]) {
        if i > 0 {
          assert runs[i] == rest[i - 1] && runs[i + 1] == rest[i];
        }
      }
    }
  }

  /** A name of digits only is one number. */
  lemma DigitsName(s: string)
    requires s != [] && AllDigits(s)
    ensures Key(s) == [Num(DecimalValue(s))]
  {
    RunEndAllSame(s, 1);
    assert Runs(s) == [s[..|s|]] + Runs(s[|s|..]);
    assert s[..|s|] == s;
    assert Runs(s[|s|..]) == [];
  }

  lemma {:induction false} RunEndAllSame(s: string, i: nat)
    requires 1 <= i <= |s|
    requires forall j :: 0 <= j < |s| ==> IsDigit(s[j]) == IsDigit(s[0])
    ensures RunEnd(s, i) == |s|
    decreases |s| - i
  {
    if i < |s| {
      RunEndAllSame(s, i + 1);
    }
  }

  // ----- letter case -----

  lemma {:induction false} RunEndLower(s: string, i: nat)
    requires 1 <= i <= |s|
    ensures RunEnd(Lower(s), i) == RunEnd(s, i)
    decreases |s| - i
  {
    if i < |s| {
      RunEndLower(s, i + 1);
    }
  }

  /** Lower-casing a name lower-cases each of its runs and keeps their boundaries. */
  lemma {:induction false} RunsLower(s: string)
    ensures |Runs(Lower(s))| == |Runs(s)|
    ensures forall i :: 0 <= i < |Runs(s)| ==> Runs(Lower(s))[i] == Lower(Runs(s)[i])
    decreases |s|
  {
    if s != [] {
      var k := RunEnd(s, 1);
      RunEndLower(s, 1);
      var t := Lower(s);
      assert t[..k] == Lower(s[..k]);
      assert t[k..] == Lower(s[k..]);
      RunsLower(s[k..]);
      assert Runs(t) == [t[..k]] + Runs(t[k..]);
      assert Runs(s) == [s[..k]] + Runs(s[k..]);
    }
  }

  lemma PartOfLower(t: string)
    ensures PartOf(Lower(t)) == PartOf(t)
  {
    forall i | 0 <= i < |t| ensures IsDigit(Lower(t)[i]) == IsDigit(t[i]) {
    }
    assert AllDigits(Lower(t)) == AllDigits(t);
    if t != [] && AllDigits(t) {
      assert Lower(t) == t;
    } else {
      assert Lower(Lower(t)) == Lower(t);
    }
  }

  /** The key ignores letter case: `natural_key` lower-cases every text run. */
  lemma KeyIgnoresCase(s: string)
    ensures Key(Lower(s)) == Key(s)
  {
    RunsLower(s);
    forall i | 0 <= i < |Runs(s)| ensures Key(Lower(s))[i] == Key(s)[i] {
      PartOfLower(Runs(s)[i]);
    }
  }

  // ----- comparing keys -----

  datatype Order = Less | Same | Greater

  function Flip(o: Order): Order {
    match o
    case Less => Greater
    case Same => Same
    case Greater => Less
  }

  /** Python's `<` on two `str`: code point by code point, a proper prefix first. */
  function CompareText(a: string, b: string): (o: Order)
    ensures o == Same <==> a == b
  {
    if a == [] && b == [] then Same
    else if a == [] then Less
    else if b == [] then Greater
    else if a[0] < b[0] then Less
    else if a[0] > b[0] then Greater
    else
      var o := CompareText(a[1..], b[1..]);
      assert o == Same ==> a == [a[0]] + a[1..] && b == [b[0]] + b[1..];
      o
  }

  function CompareNat(x: nat, y: nat): Order {
    if x < y then Less else if x > y then Greater else Same
  }

  /**
   Python's comparison of two key elements: numbers with numbers, texts with texts, and
   `None` for a number against a text, where `<` raises `TypeError`.
   */
  function ComparePartAsWritten(p: Part, q: Part): (o: Option<Order>)
    ensures o.None? <==> p.Num? != q.Num?
  {
    if p.Num? && q.Num? then Some(CompareNat(p.value, q.value))
    else if p.Text? && q.Text? then Some(CompareText(p.text, q.text))
    else None
  }

  /**
   Python's comparison of two keys as lists: the first elements that differ decide, a
   proper prefix comes first, and `None` when that first difference cannot be compared.
   */
  function CompareKeysAsWritten(a: seq<Part>, b: seq<Part>): Option<Order> {
    if a == [] && b == [] then Some(Same)
    else if a == [] then Some(Less)
    else if b == [] then Some(Greater)
    else if a[0] == b[0] then CompareKeysAsWritten(a[1..], b[1..])
    else ComparePartAsWritten(a[0], b[0])
  }

  /** A name that starts with a digit and one that starts with a letter cannot be sorted together. */
  lemma MixedNamesCannotBeSorted()
    ensures Key("1a.pdf") == [Num(1), Text("a.pdf")]
    ensures Key("a.pdf") == [Text("a.pdf")]
    ensures CompareKeysAsWritten(Key("1a.pdf"), Key("a.pdf")).None?
  {
    var s := "1a.pdf";
    assert RunEnd(s, 1) == 1;
    var t := s[1..];
    assert s[..1] == "1";
    assert t == "a.pdf";
    RunEndAllSame(t, 1);
    assert Runs(t) == [t] by {
      assert t[..|t|] == t && t[|t|..] == [];
    }
    assert Runs(s) == ["1"] + Runs(t);
    assert DecimalValue("1") == 1;
    assert Lower("a.pdf") == "a.pdf";
  }

  /**
   The comparison the "by name" sort evidently needs: as written, except that a number
   comes before a text instead of raising.
   */
  function ComparePart(p: Part, q: Part): Order {
    match (p, q)
    case (Num(x), Num(y)) => CompareNat(x, y)
    case (Text(x), Text(y)) => CompareText(x, y)
    case (Num(_), Text(_)) => Less
    case (Text(_), Num(_)) => Greater
  }

  function CompareKeys(a: seq<Part>, b: seq<Part>): Order {
    if a == [] && b == [] then Same
    else if a == [] then Less
    else if b == [] then Greater
    else if a[0] == b[0] then CompareKeys(a[1..], b[1..])
    else ComparePart(a[0], b[0])
  }

  /** Where the comparison as written gives an answer, the corrected one gives the same. */
  lemma {:induction false} CompareKeysExtends(a: seq<Part>, b: seq<Part>)
    requires CompareKeysAsWritten(a, b).Some?
    ensures CompareKeys(a, b) == CompareKeysAsWritten(a, b).value
  {
    if a != [] && b != [] && a[0] == b[0] {
      CompareKeysExtends(a[1..], b[1..]);
    }
  }

  lemma {:induction false} CompareTextFlip(a: string, b: string)
    ensures CompareText(b, a) == Flip(CompareText(a, b))
  {
    if a != [] && b != [] && a[0] == b[0] {
      CompareTextFlip(a[1..], b[1..]);
    }
  }

  lemma ComparePartSame(p: Part, q: Part)
    ensures ComparePart(p, q) == Same <==> p == q
  {
  }

  /**
   The corrected comparison is an answer for every pair of keys, `Same` only for equal
   keys, and reversing the pair reverses the answer.
   */
  lemma {:induction false} CompareKeysAntisymmetric(a: seq<Part>, b: seq<Part>)
    ensures CompareKeys(b, a) == Flip(CompareKeys(a, b))
    ensures CompareKeys(a, b) == Same <==> a == b
  {
    if a != [] && b != [] {
      if a[0] == b[0] {
        CompareKeysAntisymmetric(a[1..], b[1..]);
        assert a == [a[0]] + a[1..] && b == [b[0]] + b[1..];
      } else {
        ComparePartSame(a[0], b[0]);
        match (a[0], b[0])
        case (Text(x), Text(y)) => CompareTextFlip(x, y);
        case _ =>
      }
    }
  }

  /** Python's order on texts is transitive. */
  lemma {:induction false} CompareTextTransitive(a: string, b: string, c: string)
    requires CompareText(a, b) == Less && CompareText(b, c) == Less
    ensures CompareText(a, c) == Less
  {
    if a != [] && b != [] && c != [] && a[0] == b[0] && b[0] == c[0] {
      CompareTextTransitive(a[1..], b[1..], c[1..]);
    }
  }

  lemma ComparePartTransitive(p: Part, q: Part, r: Part)
    requires ComparePart(p, q) == Less && ComparePart(q, r) == Less
    ensures ComparePart(p, r) == Less
  {
    match (p, q, r)
    case (Text(x), Text(y), Text(z)) => CompareTextTransitive(x, y, z);
    case _ =>
  }

  /**
   The corrected comparison is transitive, so with `CompareKeysAntisymmetric` it is a total
   order on keys, and the sort by name is well defined for every list of names.
   */
  lemma {:induction false} CompareKeysTransitive(a: seq<Part>, b: seq<Part>, c: seq<Part>)
    requires CompareKeys(a, b) == Less && CompareKeys(b, c) == Less
    ensures CompareKeys(a, c) == Less
  {
    if a != [] && b != [] && c != [] {
      if a[0] == b[0] && b[0] == c[0] {
        CompareKeysTransitive(a[1..], b[1..], c[1..]);
      } else if a[0] != b[0] && b[0] != c[0] {
        ComparePartTransitive(a[0], b[0], c[0]);
        ComparePartSame(a[0], c[0]);
      }
    }
  }
}
