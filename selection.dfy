/**
 Row selections over a list, as the window's handlers use them: a set of selected row
 numbers turned into `sorted(rows)` or `sorted(rows, reverse=True)`, the entries at those
 rows, and the entries left over once they are removed.
 */
module Selection {

  /** Every row of `sel` is a row of a list of length `n`. */
  predicate RowsIn(sel: set<nat>, n: nat) {
    forall r :: r in sel ==> r < n
  }

  /** The rows of `sel` in `[lo, n)`, in ascending order. */
  function AscendingFrom(sel: set<nat>, lo: nat, n: nat): (rows: seq<nat>)
    ensures forall i :: 0 <= i < |rows| ==> lo <= rows[i] < n && rows[i] in sel
    decreases n - lo
  {
    if lo >= n then []
    else (if lo in sel then [lo] else []) + AscendingFrom(sel, lo + 1, n)
  }

  /** `sorted(sel)` for the rows of a list of length `n`. */
  function Ascending(sel: set<nat>, n: nat): (rows: seq<nat>)
    ensures forall i :: 0 <= i < |rows| ==> rows[i] < n && rows[i] in sel
  {
    AscendingFrom(sel, 0, n)
  }

  function Reverse<T>(s: seq<T>): (r: seq<T>)
    ensures |r| == |s|
    ensures forall i :: 0 <= i < |s| ==> r[i] == s[|s| - 1 - i]
  {
    seq(|s|, i requires 0 <= i < |s| => s[|s| - 1 - i])
  }

  /** `sorted(sel, reverse=True)` for the rows of a list of length `n`. */
  function Descending(sel: set<nat>, n: nat): (rows: seq<nat>)
    ensures forall i :: 0 <= i < |rows| ==> rows[i] < n && rows[i] in sel
  {
    Reverse(Ascending(sel, n))
  }

  predicate Increasing(rows: seq<nat>) {
    forall i, j :: 0 <= i < j < |rows| ==> rows[i] < rows[j]
  }

  predicate Decreasing(rows: seq<nat>) {
    forall i, j :: 0 <= i < j < |rows| ==> rows[i] > rows[j]
  }

  lemma IncreasingCons(x: nat, rest: seq<nat>)
    requires Increasing(rest) && forall k :: 0 <= k < |rest| ==> x < rest[k]
    ensures Increasing([x] + rest)
  {
    var rows := [x] + rest;
    forall i, j | 0 <= i < j < |rows| ensures rows[i] < rows[j] {
      assert rows[j] == rest[j - 1];
      if i > 0 {
        assert rows[i] == rest[i - 1];
      }
    }
  }

  lemma {:induction false} AscendingFromFacts(sel: set<nat>, lo: nat, n: nat)
    ensures Increasing(AscendingFrom(sel, lo, n))
    ensures forall r :: r in sel && lo <= r < n ==> r in AscendingFrom(sel, lo, n)
    decreases n - lo
  {
    if lo < n {
      AscendingFromFacts(sel, lo + 1, n);
      var rest := AscendingFrom(sel, lo + 1, n);
      if lo in sel {
        assert AscendingFrom(sel, lo, n) == [lo] + rest;
        IncreasingCons(lo, rest);
      } else {
        assert AscendingFrom(sel, lo, n) == rest;
      }
    }
  }

  /** `sorted` lists the rows in strictly increasing order and leaves out no selected row. */
  lemma AscendingFacts(sel: set<nat>, n: nat)
    ensures Increasing(Ascending(sel, n))
    ensures forall r :: r in sel && r < n ==> r in Ascending(sel, n)
  {
    AscendingFromFacts(sel, 0, n);
  }

  /** `sorted(..., reverse=True)` lists the rows in strictly decreasing order and leaves out none. */
  lemma DescendingFacts(sel: set<nat>, n: nat)
    ensures Decreasing(Descending(sel, n))
    ensures forall r :: r in sel && r < n ==> r in Descending(sel, n)
  {
    AscendingFacts(sel, n);
    ReverseOfIncreasing(Ascending(sel, n));
  }

  /** Reversing an increasing list gives a decreasing one with the same entries. */
  lemma ReverseOfIncreasing(up: seq<nat>)
    requires Increasing(up)
    ensures Decreasing(Reverse(up))
    ensures forall r :: r in up ==> r in Reverse(up)
  {
    var rows := Reverse(up);
    forall r | r in up ensures r in rows {
      var i :| 0 <= i < |up| && up[i] == r;
      assert rows[|up| - 1 - i] == r;
    }
    forall i, j | 0 <= i < j < |rows| ensures rows[i] > rows[j] {
      assert rows[i] == up[|up| - 1 - i] && rows[j] == up[|up| - 1 - j];
    }
  }

  /** Every entry of `rows` is a row of a list of length `n`. */
  predicate RowsBelow(rows: seq<nat>, n: nat) {
    forall i :: 0 <= i < |rows| ==> rows[i] < n
  }

  /** `[s[r] for r in rows]` */
  function Pick<T>(s: seq<T>, rows: seq<nat>): (r: seq<T>)
    requires RowsBelow(rows, |s|)
    ensures |r| == |rows|
    ensures forall i :: 0 <= i < |rows| ==> r[i] == s[rows[i]]
  {
    seq(|rows|, i requires 0 <= i < |rows| => s[rows[i]])
  }

  /** The entries of `s` whose positions (counted from `offset`) are in `sel`, in list order. */
  function KeepFrom<T>(s: seq<T>, sel: set<nat>, offset: nat): seq<T> {
    if s == [] then [] else (if offset in sel then [s[0]] else []) + KeepFrom(s[1..], sel, offset + 1)
  }

  /** The entries of `s` whose positions (counted from `offset`) are not in `sel`, in list order. */
  function DropFrom<T>(s: seq<T>, sel: set<nat>, offset: nat): seq<T> {
    if s == [] then [] else (if offset in sel then [] else [s[0]]) + DropFrom(s[1..], sel, offset + 1)
  }

  /** The selected entries of `s`, in list order. */
  function Keep<T>(s: seq<T>, sel: set<nat>): seq<T> {
    KeepFrom(s, sel, 0)
  }

  /** `s` with the selected positions removed and everything else in its original order. */
  function Drop<T>(s: seq<T>, sel: set<nat>): seq<T> {
    DropFrom(s, sel, 0)
  }

  lemma {:induction false} DropFromConcat<T>(a: seq<T>, b: seq<T>, sel: set<nat>, offset: nat)
    ensures DropFrom(a + b, sel, offset) == DropFrom(a, sel, offset) + DropFrom(b, sel, offset + |a|)
    decreases |a|
  {
    if a != [] {
      assert (a + b)[1..] == a[1..] + b;
      DropFromConcat(a[1..], b, sel, offset + 1);
      var x := if offset in sel then [] else [a[0]];
      var u, v := DropFrom(a[1..], sel, offset + 1), DropFrom(b, sel, offset + |a|);
      assert DropFrom(a + b, sel, offset) == x + (u + v);
      assert DropFrom(a, sel, offset) == x + u;
      assert x + (u + v) == (x + u) + v;
    } else {
      assert a + b == b;
    }
  }

  lemma {:induction false} KeepFromConcat<T>(a: seq<T>, b: seq<T>, sel: set<nat>, offset: nat)
    ensures KeepFrom(a + b, sel, offset) == KeepFrom(a, sel, offset) + KeepFrom(b, sel, offset + |a|)
    decreases |a|
  {
    if a != [] {
      assert (a + b)[1..] == a[1..] + b;
      KeepFromConcat(a[1..], b, sel, offset + 1);
      var x := if offset in sel then [a[0]] else [];
      var u, v := KeepFrom(a[1..], sel, offset + 1), KeepFrom(b, sel, offset + |a|);
      assert KeepFrom(a + b, sel, offset) == x + (u + v);
      assert KeepFrom(a, sel, offset) == x + u;
      assert x + (u + v) == (x + u) + v;
    } else {
      assert a + b == b;
    }
  }

  /** Where nothing is selected, nothing is dropped. */
  lemma {:induction false} DropFromUnselected<T>(a: seq<T>, sel: set<nat>, offset: nat)
    requires forall i :: offset <= i < offset + |a| ==> i !in sel
    ensures DropFrom(a, sel, offset) == a
    decreases |a|
  {
    if a != [] {
      DropFromUnselected(a[1..], sel, offset + 1);
    }
  }

  /** Where nothing is selected, nothing is kept. */
  lemma {:induction false} KeepFromUnselected<T>(a: seq<T>, sel: set<nat>, offset: nat)
    requires forall i :: offset <= i < offset + |a| ==> i !in sel
    ensures KeepFrom(a, sel, offset) == []
    decreases |a|
  {
    if a != [] {
      KeepFromUnselected(a[1..], sel, offset + 1);
    }
  }

  /** Deleting and extracting the same rows partition the list: every entry goes to exactly one side. */
  lemma {:induction false} KeepDropPartition<T>(s: seq<T>, sel: set<nat>, offset: nat)
    ensures multiset(KeepFrom(s, sel, offset)) + multiset(DropFrom(s, sel, offset)) == multiset(s)
    decreases |s|
  {
    if s != [] {
      KeepDropPartition(s[1..], sel, offset + 1);
      assert s == [s[0]] + s[1..];
    }
  }

  /** Picking one more row appends its entry. */
  lemma PickSnoc<T>(s: seq<T>, rows: seq<nat>, k: nat)
    requires k < |rows| && RowsBelow(rows, |s|)
    ensures Pick(s, rows[..k + 1]) == Pick(s, rows[..k]) + [s[rows[k]]]
  {
    assert rows[..k + 1] == rows[..k] + [rows[k]];
    PickConcat(s, rows[..k], [rows[k]]);
  }

  lemma PickConcat<T>(s: seq<T>, a: seq<nat>, b: seq<nat>)
    requires RowsBelow(a, |s|) && RowsBelow(b, |s|)
    ensures Pick(s, a + b) == Pick(s, a) + Pick(s, b)
  {
  }

  /**
   Taking the entries at the selected rows in ascending row order is the same as keeping the
   selected entries in list order.
   */
  lemma {:induction false} PickAscendingFrom<T>(s: seq<T>, sel: set<nat>, lo: nat)
    requires lo <= |s|
    ensures Pick(s, AscendingFrom(sel, lo, |s|)) == KeepFrom(s[lo..], sel, lo)
    decreases |s| - lo
  {
    if lo < |s| {
      var head: seq<nat> := if lo in sel then [lo] else [];
      var first: seq<T> := if lo in sel then [s[lo]] else [];
      var rest := AscendingFrom(sel, lo + 1, |s|);
      assert AscendingFrom(sel, lo, |s|) == head + rest;
      PickConcat(s, head, rest);
      assert Pick(s, head) == first;
      PickAscendingFrom(s, sel, lo + 1);
      var t := s[lo..];
      assert t[1..] == s[lo + 1..];
      assert KeepFrom(t, sel, lo) == first + KeepFrom(s[lo + 1..], sel, lo + 1);
    } else {
      assert s[lo..] == [];
    }
  }

  lemma PickAscending<T>(s: seq<T>, sel: set<nat>)
    ensures Pick(s, Ascending(sel, |s|)) == Keep(s, sel)
  {
    PickAscendingFrom(s, sel, 0);
    assert s[0..] == s;
  }

  function RowsBetween(sel: set<nat>, lo: nat, n: nat): set<nat> {
    set r | r in sel && lo <= r < n
  }

  lemma {:induction false} AscendingFromCardinality(sel: set<nat>, lo: nat, n: nat)
    ensures |AscendingFrom(sel, lo, n)| == |RowsBetween(sel, lo, n)|
    decreases n - lo
  {
    if lo >= n {
      assert RowsBetween(sel, lo, n) == {};
    } else {
      AscendingFromCardinality(sel, lo + 1, n);
      if lo in sel {
        assert RowsBetween(sel, lo, n) == {lo} + RowsBetween(sel, lo + 1, n);
      } else {
        assert RowsBetween(sel, lo, n) == RowsBetween(sel, lo + 1, n);
      }
    }
  }

  /** `sorted(sel)` lists every selected row once. */
  lemma AscendingCardinality(sel: set<nat>, n: nat)
    requires RowsIn(sel, n)
    ensures |Ascending(sel, n)| == |sel|
  {
    AscendingFromCardinality(sel, 0, n);
    assert RowsBetween(sel, 0, n) == sel;
  }

  /** Every entry is kept or dropped, so the two sides together are as long as the list. */
  lemma KeepDropLength<T>(s: seq<T>, sel: set<nat>, offset: nat)
    ensures |KeepFrom(s, sel, offset)| + |DropFrom(s, sel, offset)| == |s|
  {
    KeepDropPartition(s, sel, offset);
    assert |multiset(KeepFrom(s, sel, offset))| + |multiset(DropFrom(s, sel, offset))| == |multiset(s)|;
  }

  /** Removing `k` selected rows shortens the list by `k`. */
  lemma DropLength<T>(s: seq<T>, sel: set<nat>)
    requires RowsIn(sel, |s|)
    ensures |Drop(s, sel)| == |s| - |sel|
    ensures |Keep(s, sel)| == |sel|
  {
    KeepDropPartition(s, sel, 0);
    assert |multiset(Keep(s, sel))| + |multiset(Drop(s, sel))| == |multiset(s)|;
    PickAscending(s, sel);
    AscendingCardinality(sel, |s|);
  }
  /** `rows` lists every row of `sel` below `n` exactly once, in descending order. */
  predicate Lists(rows: seq<nat>, sel: set<nat>, n: nat) {
    && Decreasing(rows)
    && (forall i :: 0 <= i < |rows| ==> rows[i] < n && rows[i] in sel)
    && (forall r :: r in sel && r < n ==> r in rows)
  }

  lemma DescendingLists(sel: set<nat>, n: nat)
    ensures Lists(Descending(sel, n), sel, n)
  {
    DescendingFacts(sel, n);
  }

  /** No selected row lies strictly between two neighbours of the list, nor above its first entry. */
  lemma DescendingGap(rows: seq<nat>, sel: set<nat>, n: nat, i: nat)
    requires Lists(rows, sel, n) && i < |rows|
    ensures forall x :: rows[i] < x < (if i == 0 then n else rows[i - 1]) ==> x !in sel
  {
    var hi := if i == 0 then n else rows[i - 1];
    forall x | rows[i] < x < hi ensures x !in sel {
      forall m | 0 <= m < |rows| ensures rows[m] != x {
        if m < i {
          assert rows[m] >= rows[i - 1];
        }
      }
      assert x !in rows;
    }
  }

  /** The last entry of the list is the smallest selected row. */
  lemma DescendingLast(rows: seq<nat>, sel: set<nat>, n: nat)
    requires Lists(rows, sel, n) && RowsIn(sel, n) && sel != {}
    ensures |rows| > 0 && rows[|rows| - 1] in sel && forall x :: x in sel ==> rows[|rows| - 1] <= x
  {
    var y :| y in sel;
    assert y in rows;
    forall x | x in sel ensures rows[|rows| - 1] <= x {
      assert x in rows;
      var m :| 0 <= m < |rows| && rows[m] == x;
      assert m == |rows| - 1 || rows[m] > rows[|rows| - 1];
    }
  }

  /** `rows` lists every row of `sel` below `n` exactly once, in ascending order. */
  predicate ListsAscending(rows: seq<nat>, sel: set<nat>, n: nat) {
    && Increasing(rows)
    && (forall i :: 0 <= i < |rows| ==> rows[i] < n && rows[i] in sel)
    && (forall r :: r in sel && r < n ==> r in rows)
  }

  lemma AscendingLists(sel: set<nat>, n: nat)
    ensures ListsAscending(Ascending(sel, n), sel, n)
  {
    AscendingFacts(sel, n);
  }

  /** No selected row lies strictly between two neighbours of the list, nor below its first or above its last entry. */
  lemma AscendingGap(rows: seq<nat>, sel: set<nat>, n: nat, k: nat)
    requires ListsAscending(rows, sel, n) && k <= |rows|
    ensures forall x :: (if k == 0 then 0 else rows[k - 1] + 1) <= x < (if k == |rows| then n else rows[k]) ==> x !in sel
  {
    var lo := if k == 0 then 0 else rows[k - 1] + 1;
    var hi := if k == |rows| then n else rows[k];
    forall x | lo <= x < hi ensures x !in sel {
      forall m | 0 <= m < |rows| ensures rows[m] != x {
        if m >= k {
          assert rows[m] >= rows[k];
        }
      }
      assert x !in rows;
    }
  }

  /** The `i`-th of strictly increasing naturals is at least `i`. */
  lemma {:induction false} IncreasingAtLeastIndex(rows: seq<nat>, i: nat)
    requires Increasing(rows) && i < |rows|
    ensures i <= rows[i]
  {
    if i > 0 {
      IncreasingAtLeastIndex(rows, i - 1);
    }
  }

  // ----- removing rows in descending order -----

  /**
   One `pop(r)` of the descending delete loop: with the rows from `b` on already removed and
   no selected row between `r` and `b`, popping `r` leaves the rows from `r` on removed.
   */
  lemma PopStep<T>(s: seq<T>, sel: set<nat>, r: nat, b: nat)
    requires r < b <= |s| && r in sel
    requires forall x :: r < x < b ==> x !in sel
    ensures var p := s[..b] + DropFrom(s[b..], sel, b);
      r < |p| && p[..r] + p[r + 1..] == s[..r] + DropFrom(s[r..], sel, r)
  {
    DropSelectedHead(s, sel, r);
    DropAcrossGap(s, sel, r + 1, b);
    SpliceOut(s, DropFrom(s[b..], sel, b), r, b);
  }

  /** Dropping from a selected row on starts by dropping that row. */
  lemma DropSelectedHead<T>(s: seq<T>, sel: set<nat>, r: nat)
    requires r < |s| && r in sel
    ensures DropFrom(s[r..], sel, r) == DropFrom(s[r + 1..], sel, r + 1)
  {
    assert s[r..][1..] == s[r + 1..];
  }

  /** Rows `a..b` with none selected are kept as they are. */
  lemma DropAcrossGap<T>(s: seq<T>, sel: set<nat>, a: nat, b: nat)
    requires a <= b <= |s|
    requires forall x :: a <= x < b ==> x !in sel
    ensures DropFrom(s[a..], sel, a) == s[a..b] + DropFrom(s[b..], sel, b)
  {
    var mid, tail := s[a..b], s[b..];
    assert s[a..] == mid + tail;
    DropFromConcat(mid, tail, sel, a);
    DropFromUnselected(mid, sel, a);
  }

  /** Removing entry `r` from `s[..b] + rest`. */
  lemma SpliceOut<T>(s: seq<T>, rest: seq<T>, r: nat, b: nat)
    requires r < b <= |s|
    ensures var p := s[..b] + rest;
      r < |p| && p[..r] + p[r + 1..] == s[..r] + (s[r + 1..b] + rest)
  {
    var p := s[..b] + rest;
    assert p[..r] == s[..r];
    assert p[r + 1..] == s[r + 1..b] + rest;
  }

  /** One pass of a loop over `sorted(rows, reverse=True)` that removes the `i`-th row. */
  lemma DescendingPopStep<T>(s: seq<T>, sel: set<nat>, rows: seq<nat>, i: nat, b: nat)
    requires RowsIn(sel, |s|) && rows == Descending(sel, |s|) && i < |rows|
    requires b == (if i == 0 then |s| else rows[i - 1])
    ensures rows[i] < b <= |s|
    ensures var p := s[..b] + DropFrom(s[b..], sel, b);
      rows[i] < |p| && p[..rows[i]] + p[rows[i] + 1..] == s[..rows[i]] + DropFrom(s[rows[i]..], sel, rows[i])
  {
    DescendingLists(sel, |s|);
    DescendingGap(rows, sel, |s|, i);
    PopStep(s, sel, rows[i], b);
  }

  /** Once every selected row at or above `b` is gone and none lies below, all are gone. */
  lemma PopDone<T>(s: seq<T>, sel: set<nat>, b: nat)
    requires b <= |s|
    requires forall x :: x < b ==> x !in sel
    ensures s[..b] + DropFrom(s[b..], sel, b) == Drop(s, sel)
  {
    var head, tail := s[..b], s[b..];
    assert s == head + tail;
    assert |head| == b;
    DropFromConcat(head, tail, sel, 0);
    DropFromUnselected(head, sel, 0);
    assert DropFrom(head + tail, sel, 0) == head + DropFrom(tail, sel, b);
  }
}
