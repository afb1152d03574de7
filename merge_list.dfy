/**
 The merge list's reorder buttons.  The list widget holds one entry per PDF, each carrying
 its path; a handler takes entries out and puts them back by row, and then rebuilds the
 item list in the widget's order.  Paths in the list are distinct, so that rebuild is the
 widget's order itself.
 */
module MergeOrder {
  import opened Selection

  /** An entry of the merge list, known by its path. */
  type Entry = string

  /** `takeItem(row)`: the list without the entry at `row`. */
  function Take<T>(s: seq<T>, row: nat): (r: seq<T>)
    requires row < |s|
    ensures |r| == |s| - 1
  {
    s[..row] + s[row + 1..]
  }

  /** `insertItem(row, item)` with `row <= count`: `item` lands at `row`. */
  function Put<T>(s: seq<T>, row: nat, x: T): (r: seq<T>)
    requires row <= |s|
    ensures |r| == |s| + 1
  {
    s[..row] + [x] + s[row..]
  }

  /** Taking an entry out and putting it back somewhere keeps the same entries. */
  lemma TakePutPermutes<T>(s: seq<T>, row: nat, target: nat)
    requires row < |s| && target < |s|
    ensures multiset(Put(Take(s, row), target, s[row])) == multiset(s)
  {
    var x := s[row];
    var a, c := s[..row], s[row + 1..];
    var t := a + c;
    assert Take(s, row) == t;
    assert s == a + [x] + c;
    var u, v := t[..target], t[target..];
    assert t == u + v;
    assert Put(t, target, x) == u + [x] + v;
    calc {
      multiset(u + [x] + v);
      multiset(u) + multiset([x]) + multiset(v);
      multiset(t) + multiset([x]);
      multiset(a) + multiset(c) + multiset([x]);
      multiset(a + [x] + c);
    }
  }

  // ----- `_move_selected(delta)` -----

  /**
   One pass of `_move_selected`: the entry now at `row` moves to `row + delta` when that is a
   row of the list, and nothing happens otherwise.
   */
  function MoveStep<T>(s: seq<T>, row: nat, delta: int): (r: seq<T>)
    requires row < |s|
    ensures |r| == |s|
  {
    var target := row + delta;
    if 0 <= target < |s| then Put(Take(s, row), target, s[row]) else s
  }

  /** The passes for the first `k` rows of `rows`, in order. */
  function MoveAll<T>(s: seq<T>, rows: seq<nat>, delta: int, k: nat): (r: seq<T>)
    requires k <= |rows| && RowsBelow(rows, |s|)
    ensures |r| == |s|
  {
    if k == 0 then s else MoveStep(MoveAll(s, rows, delta, k - 1), rows[k - 1], delta)
  }

  /** The pass for `rows[k]` follows the passes before it. */
  lemma MoveAllNext<T>(s: seq<T>, rows: seq<nat>, delta: int, k: nat)
    requires k < |rows| && RowsBelow(rows, |s|)
    ensures rows[k] < |MoveAll(s, rows, delta, k)|
    ensures MoveAll(s, rows, delta, k + 1) == MoveStep(MoveAll(s, rows, delta, k), rows[k], delta)
  {
  }

  /** The up and down buttons only reorder the list. */
  lemma {:induction false} MoveAllPermutes<T>(s: seq<T>, rows: seq<nat>, delta: int, k: nat)
    requires k <= |rows| && RowsBelow(rows, |s|)
    ensures multiset(MoveAll(s, rows, delta, k)) == multiset(s)
  {
    if k > 0 {
      var j := k - 1;
      MoveAllPermutes(s, rows, delta, j);
      MoveAllLastPermutes(s, rows, delta, j);
      SameElements(MoveAll(s, rows, delta, j + 1), MoveAll(s, rows, delta, j), s);
    }
  }

  /** The pass for `rows[j]` only reorders what the passes before it left. */
  lemma MoveAllLastPermutes<T>(s: seq<T>, rows: seq<nat>, delta: int, j: nat)
    requires j < |rows| && RowsBelow(rows, |s|)
    ensures multiset(MoveAll(s, rows, delta, j + 1)) == multiset(MoveAll(s, rows, delta, j))
  {
    var t := MoveAll(s, rows, delta, j);
    MoveStepPermutes(t, rows[j], delta);
  }

  lemma SameElements<T>(a: seq<T>, b: seq<T>, c: seq<T>)
    requires multiset(a) == multiset(b) && multiset(b) == multiset(c)
    ensures multiset(a) == multiset(c)
  {
  }

  lemma MoveStepPermutes<T>(s: seq<T>, row: nat, delta: int)
    requires row < |s|
    ensures multiset(MoveStep(s, row, delta)) == multiset(s)
  {
    var target := row + delta;
    if 0 <= target < |s| {
      var moved := Put(Take(s, row), target, s[row]);
      assert MoveStep(s, row, delta) == moved;
      TakePutPermutes(s, row, target);
    } else {
      assert MoveStep(s, row, delta) == s;
    }
  }

  /**
   The order the corrected `_move_selected` visits the selected rows in: descending for a
   move down, so that no entry is moved twice; ascending otherwise, as the code does for
   both directions.
   */
  function MoveOrder(sel: set<nat>, n: nat, delta: int): (rows: seq<nat>)
    ensures forall i :: 0 <= i < |rows| ==> rows[i] < n
  {
    if delta > 0 then Descending(sel, n) else Ascending(sel, n)
  }

  /** The rows `lo..hi-1`: a block selected with shift-click. */
  function Block(lo: nat, hi: nat): set<nat>
    decreases hi - lo
  {
    if lo >= hi then {} else {lo} + Block(lo + 1, hi)
  }

  lemma {:induction false} BlockMembers(lo: nat, hi: nat, x: nat)
    ensures x in Block(lo, hi) <==> lo <= x < hi
    decreases hi - lo
  {
    if lo < hi {
      BlockMembers(lo + 1, hi, x);
    }
  }

  lemma {:induction false} AscendingFromAbove(sel: set<nat>, lo: nat, n: nat)
    requires forall x :: x in sel ==> x < lo
    ensures AscendingFrom(sel, lo, n) == []
    decreases n - lo
  {
    if lo < n {
      AscendingFromAbove(sel, lo + 1, n);
    }
  }

  lemma {:induction false} AscendingFromInBlock(lo: nat, hi: nat, n: nat, from: nat)
    requires lo <= from <= hi <= n
    ensures AscendingFrom(Block(lo, hi), from, n) == seq(hi - from, k requires 0 <= k < hi - from => from + k)
    decreases hi - from
  {
    var sel := Block(lo, hi);
    if from == hi {
      forall x | x in sel ensures x < from {
        BlockMembers(lo, hi, x);
      }
      AscendingFromAbove(sel, from, n);
    } else {
      AscendingFromInBlock(lo, hi, n, from + 1);
      BlockMembers(lo, hi, from);
      assert AscendingFrom(sel, from, n) == [from] + AscendingFrom(sel, from + 1, n);
    }
  }

  lemma {:induction false} AscendingFromBelowBlock(lo: nat, hi: nat, n: nat, from: nat)
    requires from <= lo
    ensures AscendingFrom(Block(lo, hi), from, n) == AscendingFrom(Block(lo, hi), lo, n)
    decreases lo - from
  {
    if from < lo {
      AscendingFromBelowBlock(lo, hi, n, from + 1);
      BlockMembers(lo, hi, from);
    }
  }

  /** A selected block is visited top-down as its rows in order, and bottom-up in reverse. */
  lemma BlockRows(lo: nat, hi: nat, n: nat)
    requires lo <= hi <= n
    ensures |Ascending(Block(lo, hi), n)| == hi - lo
    ensures forall k :: 0 <= k < hi - lo ==> Ascending(Block(lo, hi), n)[k] == lo + k
    ensures |Descending(Block(lo, hi), n)| == hi - lo
    ensures forall k :: 0 <= k < hi - lo ==> Descending(Block(lo, hi), n)[k] == hi - 1 - k
  {
    AscendingBlock(lo, hi, n);
    DescendingBlock(lo, hi, n);
  }

  lemma AscendingBlock(lo: nat, hi: nat, n: nat)
    requires lo <= hi <= n
    ensures |Ascending(Block(lo, hi), n)| == hi - lo
    ensures forall k :: 0 <= k < hi - lo ==> Ascending(Block(lo, hi), n)[k] == lo + k
  {
    AscendingFromBelowBlock(lo, hi, n, 0);
    AscendingFromInBlock(lo, hi, n, lo);
  }

  lemma DescendingBlock(lo: nat, hi: nat, n: nat)
    requires lo <= hi <= n
    ensures |Descending(Block(lo, hi), n)| == hi - lo
    ensures forall k :: 0 <= k < hi - lo ==> Descending(Block(lo, hi), n)[k] == hi - 1 - k
  {
    AscendingBlock(lo, hi, n);
    var up := Ascending(Block(lo, hi), n);
    forall k | 0 <= k < hi - lo ensures Descending(Block(lo, hi), n)[k] == hi - 1 - k {
      assert Descending(Block(lo, hi), n)[k] == up[|up| - 1 - k];
    }
  }

  /** `s` with the entry at row `hi` lifted to row `r`, the rows `r..hi-1` shifted down by one. */
  function RaisedTo<T>(s: seq<T>, r: nat, hi: nat): (t: seq<T>)
    requires r <= hi < |s|
    ensures |t| == |s|
  {
    s[..r] + [s[hi]] + s[r..hi] + s[hi + 1..]
  }

  /** `s` with the entry at row `lo - 1` sunk to row `r - 1`, the rows `lo..r-1` shifted up by one. */
  function SunkTo<T>(s: seq<T>, lo: nat, r: nat): (t: seq<T>)
    requires 0 < lo <= r <= |s|
    ensures |t| == |s|
  {
    s[..lo - 1] + s[lo..r] + [s[lo - 1]] + s[r..]
  }

  /** One pass down over a block: row `r` trades places with the risen entry just under it. */
  lemma BlockDownSplice<T>(s: seq<T>, r: nat, hi: nat)
    requires r < hi < |s|
    ensures MoveStep(RaisedTo(s, r + 1, hi), r, 1) == RaisedTo(s, r, hi)
  {
    var list := RaisedTo(s, r + 1, hi);
    assert list[r] == s[r];
    assert MoveStep(list, r, 1) == Put(Take(list, r), r + 1, list[r]);
    var t := Take(list, r);
    assert t == s[..r] + [s[hi]] + s[r + 1..hi] + s[hi + 1..];
    assert t[..r + 1] == s[..r] + [s[hi]];
    assert t[r + 1..] == s[r + 1..hi] + s[hi + 1..];
    assert s[r..hi] == [s[r]] + s[r + 1..hi];
  }

  /** After `m` passes over a block visited bottom-up, the entry under the block has risen by `m`. */
  lemma {:induction false} BlockDownPasses<T>(s: seq<T>, rows: seq<nat>, lo: nat, hi: nat, m: nat)
    requires lo <= hi < |s| && |rows| == hi - lo && m <= |rows|
    requires forall k :: 0 <= k < |rows| ==> rows[k] == hi - 1 - k
    ensures MoveAll(s, rows, 1, m) == RaisedTo(s, hi - m, hi)
  {
    if m == 0 {
      assert RaisedTo(s, hi, hi) == s by {
        assert s[hi..hi] == [];
        assert s == s[..hi] + [s[hi]] + s[hi + 1..];
      }
      assert hi - m == hi;
    } else {
      var r := hi - m;
      var above := r + 1;
      assert hi - (m - 1) == above;
      BlockDownPasses(s, rows, lo, hi, m - 1);
      assert rows[m - 1] == r;
      BlockDownSplice(s, r, hi);
      var list := MoveAll(s, rows, 1, m - 1);
      assert list == RaisedTo(s, above, hi);
      assert MoveAll(s, rows, 1, m) == MoveStep(list, r, 1);
    }
  }

  /** One pass up over a block: row `r` trades places with the sunk entry just over it. */
  lemma BlockUpSplice<T>(s: seq<T>, lo: nat, r: nat)
    requires 0 < lo <= r < |s|
    ensures MoveStep(SunkTo(s, lo, r), r, -1) == SunkTo(s, lo, r + 1)
  {
    var list := SunkTo(s, lo, r);
    assert list[r] == s[r];
    assert MoveStep(list, r, -1) == Put(Take(list, r), r - 1, list[r]);
    var t := Take(list, r);
    assert t == s[..lo - 1] + s[lo..r] + [s[lo - 1]] + s[r + 1..];
    assert t[..r - 1] == s[..lo - 1] + s[lo..r];
    assert t[r - 1..] == [s[lo - 1]] + s[r + 1..];
    assert s[lo..r + 1] == s[lo..r] + [s[r]];
  }

  /** After `m` passes over a block visited top-down, the entry over the block has sunk by `m`. */
  lemma {:induction false} BlockUpPasses<T>(s: seq<T>, rows: seq<nat>, lo: nat, hi: nat, m: nat)
    requires 0 < lo <= hi <= |s| && |rows| == hi - lo && m <= |rows|
    requires forall k :: 0 <= k < |rows| ==> rows[k] == lo + k
    ensures MoveAll(s, rows, -1, m) == SunkTo(s, lo, lo + m)
  {
    if m == 0 {
      assert SunkTo(s, lo, lo) == s by {
        assert s[lo..lo] == [];
        assert s == s[..lo - 1] + [s[lo - 1]] + s[lo..];
      }
      assert lo + m == lo;
    } else {
      var r := lo + (m - 1);
      var below := r + 1;
      assert lo + m == below;
      BlockUpPasses(s, rows, lo, hi, m - 1);
      assert rows[m - 1] == r;
      BlockUpSplice(s, lo, r);
      var list := MoveAll(s, rows, -1, m - 1);
      assert list == SunkTo(s, lo, r);
      assert MoveAll(s, rows, -1, m) == MoveStep(list, r, -1);
    }
  }

  /**
   Moving a block of rows down by one, visiting its rows in the corrected, descending order:
   the block stays together, in order, and the entry
   that was under it moves above it.
   */
  lemma MoveBlockDown<T>(s: seq<T>, lo: nat, hi: nat)
    requires lo < hi < |s|
    ensures var rows := MoveOrder(Block(lo, hi), |s|, 1);
            MoveAll(s, rows, 1, |rows|) == s[..lo] + [s[hi]] + s[lo..hi] + s[hi + 1..]
  {
    var rows := Descending(Block(lo, hi), |s|);
    assert MoveOrder(Block(lo, hi), |s|, 1) == rows;
    DescendingBlock(lo, hi, |s|);
    RowsDownBlock(s, rows, lo, hi);
  }

  lemma RowsDownBlock<T>(s: seq<T>, rows: seq<nat>, lo: nat, hi: nat)
    requires lo < hi < |s| && |rows| == hi - lo
    requires forall k :: 0 <= k < |rows| ==> rows[k] == hi - 1 - k
    ensures MoveAll(s, rows, 1, |rows|) == s[..lo] + [s[hi]] + s[lo..hi] + s[hi + 1..]
  {
    var m := |rows|;
    assert hi - m == lo;
    BlockDownPasses(s, rows, lo, hi, m);
  }

  /**
   Moving a block of rows up by one, visiting its rows in ascending order as the code does:
   the block stays together, in order, and the entry that
   was over it moves below it.
   */
  lemma MoveBlockUp<T>(s: seq<T>, lo: nat, hi: nat)
    requires 0 < lo < hi <= |s|
    ensures var rows := Ascending(Block(lo, hi), |s|);
            MoveAll(s, rows, -1, |rows|) == s[..lo - 1] + s[lo..hi] + [s[lo - 1]] + s[hi..]
  {
    var rows := Ascending(Block(lo, hi), |s|);
    AscendingBlock(lo, hi, |s|);
    RowsUpBlock(s, rows, lo, hi);
  }

  lemma RowsUpBlock<T>(s: seq<T>, rows: seq<nat>, lo: nat, hi: nat)
    requires 0 < lo < hi <= |s| && |rows| == hi - lo
    requires forall k :: 0 <= k < |rows| ==> rows[k] == lo + k
    ensures MoveAll(s, rows, -1, |rows|) == s[..lo - 1] + s[lo..hi] + [s[lo - 1]] + s[hi..]
  {
    var m := |rows|;
    assert lo + m == hi;
    BlockUpPasses(s, rows, lo, hi, m);
  }

  // ----- `_move_top` -----

  /** Every entry of `rows` is a row of a list of length `n`, and the `i`-th is at least `i`. */
  predicate TopRows(rows: seq<nat>, n: nat) {
    forall i :: 0 <= i < |rows| ==> i <= rows[i] < n
  }

  /**
   `_move_top` as written: the `idx`-th selected row in ascending order is taken from row
   `row - idx` and inserted at row `idx`.
   */
  function TopAsWritten<T>(s: seq<T>, rows: seq<nat>, k: nat): (r: seq<T>)
    requires k <= |rows| && TopRows(rows, |s|)
    ensures |r| == |s|
  {
    if k == 0 then s
    else
      var t := TopAsWritten(s, rows, k - 1);
      var idx := k - 1;
      Put(Take(t, rows[idx] - idx), idx, t[rows[idx] - idx])
  }

  /** The ascending rows of a selection meet `TopRows`: the `i`-th of them is at least `i`. */
  lemma AscendingTopRows(sel: set<nat>, n: nat)
    ensures TopRows(Ascending(sel, n), n)
  {
    var rows := Ascending(sel, n);
    AscendingFacts(sel, n);
    forall i | 0 <= i < |rows| ensures i <= rows[i] {
      IncreasingAtLeastIndex(rows, i);
    }
  }

  /** The top move as written only reorders the list. */
  lemma {:induction false} TopAsWrittenPermutes<T>(s: seq<T>, rows: seq<nat>, k: nat)
    requires k <= |rows| && TopRows(rows, |s|)
    ensures multiset(TopAsWritten(s, rows, k)) == multiset(s)
  {
    if k > 0 {
      var j := k - 1;
      TopAsWrittenPermutes(s, rows, j);
      TopAsWrittenLastPermutes(s, rows, j);
      SameElements(TopAsWritten(s, rows, j + 1), TopAsWritten(s, rows, j), s);
    }
  }

  /** The pass for `rows[j]` only reorders what the passes before it left. */
  lemma TopAsWrittenLastPermutes<T>(s: seq<T>, rows: seq<nat>, j: nat)
    requires j < |rows| && TopRows(rows, |s|)
    ensures multiset(TopAsWritten(s, rows, j + 1)) == multiset(TopAsWritten(s, rows, j))
  {
    var t := TopAsWritten(s, rows, j);
    TakePutPermutes(t, rows[j] - j, j);
  }

  /** The pass for `rows[k]`, with the index arithmetic done once. */
  lemma TopAsWrittenNext<T>(s: seq<T>, rows: seq<nat>, k: nat)
    requires k < |rows| && TopRows(rows, |s|)
    ensures var t := TopAsWritten(s, rows, k);
            var from := rows[k] - k;
            && from < |t| && k <= |t| - 1
            && TopAsWritten(s, rows, k + 1) == Put(Take(t, from), k, t[from])
  {
  }

  /**
   Moving the last two of three entries to the top: the code takes the row above the second
   selected one and leaves that one where it was.
   */
  lemma MoveTopAsWrittenReorders()
    ensures TopAsWritten(["a", "b", "c"], [1, 2], 2) == ["b", "a", "c"]
    ensures Keep(["a", "b", "c"], {1, 2}) + Drop(["a", "b", "c"], {1, 2}) == ["b", "c", "a"]
  {
    var s: seq<Entry> := ["a", "b", "c"];
    assert TopAsWritten(s, [1, 2], 1) == ["b", "a", "c"];
    assert Take(["b", "a", "c"], 1) == ["b", "c"];
    assert s[1..][1..] == ["c"] && s[1..][1..][1..] == [];
    assert Keep(s, {1, 2}) == ["b", "c"];
    assert Drop(s, {1, 2}) == ["a"];
  }

  /** Taking row `r` out of `k + d + s[b..]` and putting it at row `|k|`, where `|k| + |d| == b`. */
  lemma TopSplice<T>(s: seq<T>, k: seq<T>, d: seq<T>, b: nat, r: nat)
    requires b <= r < |s| && |k| + |d| == b
    ensures var list := k + d + s[b..];
            && r < |list| && list[r] == s[r] && |k| <= |list| - 1
            && Put(Take(list, r), |k|, list[r]) == k + [s[r]] + d + s[b..r] + s[r + 1..]
  {
    var list := k + d + s[b..];
    assert list[r] == s[b..][r - b] == s[r];
    assert list[..r] == k + d + s[b..r];
    assert list[r + 1..] == s[r + 1..];
    var t := Take(list, r);
    assert t[..|k|] == k;
    assert t[|k|..] == d + s[b..r] + s[r + 1..];
  }

  /** With no selected row in `b..r` and `r` selected, the prefix up to `r` keeps `r` and drops the gap. */
  lemma PrefixThroughSelected<T>(s: seq<T>, sel: set<nat>, b: nat, r: nat)
    requires b <= r < |s| && r in sel
    requires forall x :: b <= x < r ==> x !in sel
    ensures Keep(s[..r + 1], sel) == Keep(s[..b], sel) + [s[r]]
    ensures Drop(s[..r + 1], sel) == Drop(s[..b], sel) + s[b..r]
  {
    var head, gap, one := s[..b], s[b..r], [s[r]];
    assert s[..r + 1] == (head + gap) + one;
    KeepFromConcat(head + gap, one, sel, 0);
    KeepFromConcat(head, gap, sel, 0);
    DropFromConcat(head + gap, one, sel, 0);
    DropFromConcat(head, gap, sel, 0);
    KeepFromUnselected(gap, sel, b);
    DropFromUnselected(gap, sel, b);
    assert KeepFrom(one, sel, r) == one;
    assert DropFrom(one, sel, r) == [];
  }

  /**
   One pass of the corrected top move: with the selected rows below `b` already at the front
   in order, the next selected row `r`, which is still at row `r`, goes to the end of that
   front block.
   */
  lemma TopStep<T>(s: seq<T>, sel: set<nat>, rows: seq<nat>, idx: nat, b: nat, list: seq<T>)
    requires rows == Ascending(sel, |s|) && idx < |rows|
    requires b == (if idx == 0 then 0 else rows[idx - 1] + 1) && |Keep(s[..b], sel)| == idx
    requires list == Keep(s[..b], sel) + Drop(s[..b], sel) + s[b..]
    ensures var r := rows[idx];
            && b <= r < |list| && idx <= |list| - 1
            && Put(Take(list, r), idx, list[r]) == Keep(s[..r + 1], sel) + Drop(s[..r + 1], sel) + s[r + 1..]
            && |Keep(s[..r + 1], sel)| == idx + 1
  {
    var r := rows[idx];
    NextAscending(sel, |s|, rows, idx, b);
    var k, d := Keep(s[..b], sel), Drop(s[..b], sel);
    KeepDropLength(s[..b], sel, 0);
    TopSplice(s, k, d, b, r);
    PrefixThroughSelected(s, sel, b, r);
    assert k + [s[r]] + d + s[b..r] + s[r + 1..] == (k + [s[r]]) + (d + s[b..r]) + s[r + 1..];
  }

  /** The `idx`-th row of `sorted(sel)` is selected, and none lies between it and the one before. */
  lemma NextAscending(sel: set<nat>, n: nat, rows: seq<nat>, idx: nat, b: nat)
    requires rows == Ascending(sel, n) && idx < |rows|
    requires b == (if idx == 0 then 0 else rows[idx - 1] + 1)
    ensures b <= rows[idx] < n && rows[idx] in sel
    ensures forall x :: b <= x < rows[idx] ==> x !in sel
  {
    AscendingLists(sel, n);
    AscendingGap(rows, sel, n, idx);
    if idx > 0 {
      assert rows[idx - 1] < rows[idx];
    }
  }

  /** After the last selected row nothing is selected, so the front block is every selected entry. */
  lemma TopFinish<T>(s: seq<T>, sel: set<nat>, rows: seq<nat>, b: nat)
    requires rows == Ascending(sel, |s|)
    requires b == (if |rows| == 0 then 0 else rows[|rows| - 1] + 1)
    ensures b <= |s|
    ensures Keep(s[..b], sel) + Drop(s[..b], sel) + s[b..] == Keep(s, sel) + Drop(s, sel)
  {
    AscendingLists(sel, |s|);
    AscendingGap(rows, sel, |s|, |rows|);
    TopDone(s, sel, b);
  }

  /** After the last selected row nothing is selected, so the front block is every selected entry. */
  lemma TopDone<T>(s: seq<T>, sel: set<nat>, b: nat)
    requires b <= |s|
    requires forall x :: b <= x < |s| ==> x !in sel
    ensures Keep(s[..b], sel) + Drop(s[..b], sel) + s[b..] == Keep(s, sel) + Drop(s, sel)
  {
    var head, tail := s[..b], s[b..];
    assert s == head + tail;
    KeepFromConcat(head, tail, sel, 0);
    DropFromConcat(head, tail, sel, 0);
    KeepFromUnselected(tail, sel, b);
    DropFromUnselected(tail, sel, b);
  }

  /** `_move_top` with the fix: the `idx`-th selected row is taken from its own row. */
  function TopCorrected<T>(s: seq<T>, rows: seq<nat>, k: nat): (r: seq<T>)
    requires k <= |rows| && TopRows(rows, |s|)
    ensures |r| == |s|
  {
    if k == 0 then s
    else
      var t := TopCorrected(s, rows, k - 1);
      var idx := k - 1;
      Put(Take(t, rows[idx]), idx, t[rows[idx]])
  }

  /**
   After `idx` passes of the corrected top move, the selected entries above the next
   selected row are at the front in order, then the unselected ones above it, then the rest.
   */
  lemma {:induction false} TopCorrectedPrefix<T>(s: seq<T>, sel: set<nat>, rows: seq<nat>, idx: nat, b: nat)
    requires rows == Ascending(sel, |s|) && TopRows(rows, |s|) && idx <= |rows|
    requires b == if idx == 0 then 0 else rows[idx - 1] + 1
    ensures b <= |s| && |Keep(s[..b], sel)| == idx
    ensures TopCorrected(s, rows, idx) == Keep(s[..b], sel) + Drop(s[..b], sel) + s[b..]
  {
    if idx == 0 {
      assert s[..0] == [] && s[0..] == s;
    } else {
      var j := idx - 1;
      var a := if j == 0 then 0 else rows[j - 1] + 1;
      TopCorrectedPrefix(s, sel, rows, j, a);
      var t := TopCorrected(s, rows, j);
      var r := rows[j];
      assert b == r + 1;
      TopStep(s, sel, rows, j, a, t);
      assert TopCorrected(s, rows, idx) == Put(Take(t, r), j, t[r]);
    }
  }

  /** The corrected top move puts the selected entries first, in order, and the others after them. */
  lemma TopCorrectedMeaning<T>(s: seq<T>, sel: set<nat>)
    ensures TopRows(Ascending(sel, |s|), |s|)
    ensures TopCorrected(s, Ascending(sel, |s|), |Ascending(sel, |s|)|) == Keep(s, sel) + Drop(s, sel)
  {
    var rows := Ascending(sel, |s|);
    AscendingTopRows(sel, |s|);
    var b := if |rows| == 0 then 0 else rows[|rows| - 1] + 1;
    TopCorrectedPrefix(s, sel, rows, |rows|, b);
    TopFinish(s, sel, rows, b);
  }

  /**
   What the top move evidently means: the selected entries come first, in their old order,
   followed by the others in theirs, and no entry is lost or repeated.
   */
  lemma TopMoveMeaning<T>(s: seq<T>, sel: set<nat>)
    requires RowsIn(sel, |s|)
    ensures |Keep(s, sel) + Drop(s, sel)| == |s|
    ensures multiset(Keep(s, sel) + Drop(s, sel)) == multiset(s)
    ensures |Ascending(sel, |s|)| == |sel| == |Keep(s, sel)|
    ensures forall i :: 0 <= i < |Ascending(sel, |s|)| ==> (Keep(s, sel) + Drop(s, sel))[i] == s[Ascending(sel, |s|)[i]]
  {
    KeepDropPartition(s, sel, 0);
    DropLength(s, sel);
    PickAscending(s, sel);
  }

  // ----- `_move_bottom` -----

  /** One pass of the bottom move: row `r` is taken out and appended. */
  lemma BottomStep<T>(s: seq<T>, sel: set<nat>, rows: seq<nat>, k: nat, b: nat)
    requires RowsIn(sel, |s|) && rows == Descending(sel, |s|) && k < |rows|
    requires b == (if k == 0 then |s| else rows[k - 1])
    ensures var list := s[..b] + DropFrom(s[b..], sel, b) + Pick(s, rows[..k]);
            var r := rows[k];
            && r < |list| && list[r] == s[r]
            && Take(list, r) + [list[r]] == s[..r] + DropFrom(s[r..], sel, r) + Pick(s, rows[..k + 1])
  {
    var r := rows[k];
    DescendingPopStep(s, sel, rows, k, b);
    var p := s[..b] + DropFrom(s[b..], sel, b);
    assert p[r] == s[r];
    PickSnoc(s, rows, k);
    TakeThenAppend(p, Pick(s, rows[..k]), r, s[..r] + DropFrom(s[r..], sel, r));
  }

  /** Taking row `r` of the front part of `p + q` out and appending it. */
  lemma TakeThenAppend<T>(p: seq<T>, q: seq<T>, r: nat, rest: seq<T>)
    requires r < |p| && p[..r] + p[r + 1..] == rest
    ensures (p + q)[r] == p[r]
    ensures Take(p + q, r) + [p[r]] == rest + (q + [p[r]])
  {
    TakeBeforeTail(p, q, r);
  }

  /** Taking a row of the front part of `p + q` out of it. */
  lemma TakeBeforeTail<T>(p: seq<T>, q: seq<T>, r: nat)
    requires r < |p|
    ensures (p + q)[r] == p[r]
    ensures Take(p + q, r) == (p[..r] + p[r + 1..]) + q
  {
    assert (p + q)[..r] == p[..r];
    assert (p + q)[r + 1..] == p[r + 1..] + q;
  }

  /** After the bottom move's loop: the unselected entries, then the selected ones, last row first. */
  lemma BottomDone<T>(s: seq<T>, sel: set<nat>, rows: seq<nat>, b: nat)
    requires RowsIn(sel, |s|) && rows == Descending(sel, |s|) && rows != []
    requires b == rows[|rows| - 1]
    ensures s[..b] + DropFrom(s[b..], sel, b) + Pick(s, rows[..|rows|]) == Drop(s, sel) + Pick(s, rows)
  {
    RemoveDone(s, sel, rows, b);
    assert rows[..|rows|] == rows;
  }

  /** After a descending removal loop: every selected row is gone. */
  lemma RemoveDone<T>(s: seq<T>, sel: set<nat>, rows: seq<nat>, b: nat)
    requires RowsIn(sel, |s|) && rows == Descending(sel, |s|) && rows != []
    requires b == rows[|rows| - 1]
    ensures b <= |s| && s[..b] + DropFrom(s[b..], sel, b) == Drop(s, sel)
  {
    DescendingLists(sel, |s|);
    DescendingLast(rows, sel, |s|);
    PopDone(s, sel, b);
  }

  // ----- the list and its buttons -----

  class MergeList {
    /** The entries of the list widget, top to bottom; `self.items` follows them. */
    var entries: seq<Entry>

    constructor()
      ensures entries == []
    {
      entries := [];
    }

    /**
     `_move_selected(delta)`: the selected rows are visited in ascending order, whichever
     the direction, and each moves by `delta` when the target row exists.
     */
    method MoveSelected(sel: set<nat>, delta: int)
      requires RowsIn(sel, |entries|)
      modifies this
      ensures entries == MoveAll(old(entries), Ascending(sel, |old(entries)|), delta, |Ascending(sel, |old(entries)|)|)
    {
      var rows := Ascending(sel, |entries|);
      if rows == [] {
        return;
      }
      ghost var s := entries;
      var list := entries;
      var i := 0;
      while i < |rows|
        invariant 0 <= i <= |rows|
        invariant list == MoveAll(s, rows, delta, i)
      {
        MoveAllNext(s, rows, delta, i);
        var row := rows[i];
        var newRow := row + delta;
        if 0 <= newRow < |list| {
          var item := list[row];
          list := Put(Take(list, row), newRow, item);
        }
        i := i + 1;
      }
      entries := list;
    }

    /**
     `_move_top`: the `idx`-th selected row in ascending order is taken from row `row - idx`
     and inserted at row `idx`.
     */
    method MoveTop(sel: set<nat>)
      requires RowsIn(sel, |entries|)
      modifies this
      ensures TopRows(Ascending(sel, |old(entries)|), |old(entries)|)
      ensures entries == TopAsWritten(old(entries), Ascending(sel, |old(entries)|), |Ascending(sel, |old(entries)|)|)
    {
      ghost var s := entries;
      var rows := Ascending(sel, |entries|);
      AscendingTopRows(sel, |entries|);
      if rows == [] {
        return;
      }
      var list := entries;
      var idx := 0;
      while idx < |rows|
        invariant 0 <= idx <= |rows|
        invariant list == TopAsWritten(s, rows, idx)
      {
        TopAsWrittenNext(s, rows, idx);
        var from := rows[idx] - idx;
        var item := list[from];
        list := Put(Take(list, from), idx, item);
        idx := idx + 1;
      }
      entries := list;
    }

    /**
     `_move_bottom`: the selected rows, from the last one up, are each taken out and
     appended, so they end up at the bottom in descending row order.
     */
    method MoveBottom(sel: set<nat>)
      requires RowsIn(sel, |entries|)
      modifies this
      ensures entries == Drop(old(entries), sel) + Pick(old(entries), Descending(sel, |old(entries)|))
    {
      ghost var s := entries;
      var rows := Descending(sel, |entries|);
      if rows == [] {
        NonEmptyRows(sel, |s|);
        assert Drop(s, sel) == s by { DropFromUnselected(s, sel, 0); }
        return;
      }
      var list := entries;
      var k := 0;
      ghost var b := |s|;
      while k < |rows|
        invariant 0 <= k <= |rows|
        invariant b == (if k == 0 then |s| else rows[k - 1])
        invariant list == s[..b] + DropFrom(s[b..], sel, b) + Pick(s, rows[..k])
      {
        var row := rows[k];
        BottomStep(s, sel, rows, k, b);
        var item := list[row];
        list := Take(list, row) + [item];
        b := row;
        k := k + 1;
      }
      BottomDone(s, sel, rows, b);
      entries := list;
    }

    /** `_remove_selected`: the selected rows, from the last one up, are taken out. */
    method RemoveSelected(sel: set<nat>)
      requires RowsIn(sel, |entries|)
      modifies this
      ensures entries == Drop(old(entries), sel)
    {
      ghost var s := entries;
      var rows := Descending(sel, |entries|);
      if rows == [] {
        NonEmptyRows(sel, |s|);
        DropFromUnselected(s, sel, 0);
        return;
      }
      var list := entries;
      var k := 0;
      ghost var b := |s|;
      while k < |rows|
        invariant 0 <= k <= |rows|
        invariant b == (if k == 0 then |s| else rows[k - 1])
        invariant list == s[..b] + DropFrom(s[b..], sel, b)
      {
        var row := rows[k];
        DescendingPopStep(s, sel, rows, k, b);
        list := Take(list, row);
        b := row;
        k := k + 1;
      }
      RemoveDone(s, sel, rows, b);
      entries := list;
    }

    /** `_clear_list` */
    method Clear()
      modifies this
      ensures entries == []
    {
      entries := [];
    }
  }

  /** With no row selected, the descending row list is empty and no row is selected below `n`. */
  lemma NonEmptyRows(sel: set<nat>, n: nat)
    requires RowsIn(sel, n) && Descending(sel, n) == []
    ensures sel == {}
  {
    AscendingCardinality(sel, n);
    assert |Descending(sel, n)| == |Ascending(sel, n)|;
  }

  /** The bottom move only reorders the list. */
  lemma MoveBottomPermutes<T>(s: seq<T>, sel: set<nat>)
    requires RowsIn(sel, |s|)
    ensures multiset(Drop(s, sel) + Pick(s, Descending(sel, |s|))) == multiset(s)
  {
    PickAscending(s, sel);
    var up := Ascending(sel, |s|);
    var down := Pick(s, Descending(sel, |s|));
    assert down == Reverse(Keep(s, sel));
    ReversePermutes(Keep(s, sel));
    KeepDropPartition(s, sel, 0);
  }

  lemma {:induction false} ReversePermutes<T>(s: seq<T>)
    ensures multiset(Reverse(s)) == multiset(s)
  {
    if s != [] {
      ReversePermutes(s[1..]);
      assert Reverse(s) == Reverse(s[1..]) + [s[0]];
      assert s == [s[0]] + s[1..];
    }
  }

  // ----- examples -----

  /** Moving rows 1 and 3 of four up swaps each with the entry above it. */
  lemma MoveUpSeparateRows()
    ensures MoveAll(["a", "b", "c", "d"], [1, 3], -1, 2) == ["b", "a", "d", "c"]
  {
    var s: seq<Entry> := ["a", "b", "c", "d"];
    assert MoveAll(s, [1, 3], -1, 1) == ["b", "a", "c", "d"];
  }

  /**
   `_move_selected(+1)` as written visits the rows in ascending order for a move down too:
   with rows 1 and 2 of four selected, the first pass moves `b` under `c`, and the second
   pass, at row 2, moves `b` again instead of `c`; the block order evidently intended is
   `a, d, b, c`.
   */
  lemma MoveDownAsWrittenSplitsBlock()
    ensures Ascending(Block(1, 3), 4) == [1, 2]
    ensures MoveAll(["a", "b", "c", "d"], Ascending(Block(1, 3), 4), 1, 2) == ["a", "c", "d", "b"]
    ensures MoveAll(["a", "b", "c", "d"], MoveOrder(Block(1, 3), 4, 1), 1, 2) == ["a", "d", "b", "c"]
  {
    BlockRows(1, 3, 4);
    AscendingPassesSplitBlock();
    DescendingPassesKeepBlock();
  }

  lemma AscendingPassesSplitBlock()
    ensures MoveAll(["a", "b", "c", "d"], [1, 2], 1, 2) == ["a", "c", "d", "b"]
  {
    var s: seq<Entry> := ["a", "b", "c", "d"];
    var once: seq<Entry> := ["a", "c", "b", "d"];
    assert Take(s, 1) == ["a", "c", "d"];
    assert MoveAll(s, [1, 2], 1, 1) == once;
    assert Take(once, 2) == ["a", "c", "d"];
  }

  lemma DescendingPassesKeepBlock()
    ensures MoveAll(["a", "b", "c", "d"], MoveOrder(Block(1, 3), 4, 1), 1, 2) == ["a", "d", "b", "c"]
  {
    var s: seq<Entry> := ["a", "b", "c", "d"];
    var rows := MoveOrder(Block(1, 3), 4, 1);
    BlockRows(1, 3, 4);
    assert |rows| == 2;
    MoveBlockDown(s, 1, 3);
    FourWithBlockDown(s);
    assert MoveAll(s, rows, 1, 2) == [s[0], s[3], s[1], s[2]];
  }

  lemma FourWithBlockDown<T>(s: seq<T>)
    requires |s| == 4
    ensures s[..1] + [s[3]] + s[1..3] + s[4..] == [s[0], s[3], s[1], s[2]]
  {
  }
}
