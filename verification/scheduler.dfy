/** The dirty-line list of plugin/jft/Validation.py (`_invalid_lines`):
    the lines invalidated since the last pass, and how a multi-line delete
    moves them.

    The source rebuilds the list as `list(set(...))`, so its order is the
    set's iteration order; the model keeps it ascending, which is one of the
    orders the source can produce and the one its `bisect` call assumes. */
module Scheduler {
  import opened Seqs

  /** Strictly ascending, hence duplicate-free. */
  predicate Ascending(s: seq<int>) {
    forall i, j :: 0 <= i < j < |s| ==> s[i] < s[j]
  }

  /** Prepending an element below every element keeps a list ascending. */
  lemma AscendingCons(x: int, t: seq<int>)
    requires Ascending(t) && forall k :: k in t ==> x < k
    ensures Ascending([x] + t)
  {
    var r := [x] + t;
    forall i, j | 0 <= i < j < |r| ensures r[i] < r[j] {
      assert r[j] == t[j - 1] && t[j - 1] in t;
      if i > 0 { assert r[i] == t[i - 1]; }
    }
  }

  /** Insert `x` into an ascending list unless it is already there. */
  function InsertAsc(s: seq<int>, x: int): (r: seq<int>)
    requires Ascending(s)
    ensures Ascending(r)
    ensures forall k :: k in r <==> k in s || k == x
    ensures x in s ==> r == s
    decreases |s|
  {
    if |s| == 0 then [x]
    else if x < s[0] then
      BelowHead(s, x);
      AscendingCons(x, s);
      [x] + s
    else if x == s[0] then s
    else
      var t := InsertAsc(s[1..], x);
      HeadBelowTail(s);
      AscendingCons(s[0], t);
      [s[0]] + t
  }

  /** Below the head of an ascending list is below all of it. */
  lemma BelowHead(s: seq<int>, x: int)
    requires Ascending(s) && |s| > 0 && x < s[0]
    ensures forall k :: k in s ==> x < k
  {
    forall k | k in s ensures x < k { var i :| 0 <= i < |s| && s[i] == k; assert s[0] <= s[i]; }
  }

  /** The head of an ascending list is below its tail, and the list is its
      head and its tail. */
  lemma HeadBelowTail(s: seq<int>)
    requires Ascending(s) && |s| > 0
    ensures forall k :: k in s[1..] ==> s[0] < k
    ensures forall k :: k in s <==> k == s[0] || k in s[1..]
  {
    assert s == [s[0]] + s[1..];
    forall k | k in s[1..] ensures s[0] < k { var i :| 1 <= i < |s| && s[i] == k; }
  }

  /** `list(set(s))`, kept ascending. */
  function Normalise(s: seq<int>): (r: seq<int>)
    ensures Ascending(r)
    ensures forall k :: k in r <==> k in s
    ensures Ascending(s) ==> r == s
  {
    if |s| == 0 then []
    else
      var init := s[..|s| - 1];
      var t := Normalise(init);
      assert s == init + [s[|s| - 1]];
      assert forall k :: k in s <==> k in init || k == s[|s| - 1];
      assert Ascending(s) ==> Ascending(init) && s[|s| - 1] !in init by {
        if Ascending(s) {
          forall k | k in init ensures k < s[|s| - 1] { var i :| 0 <= i < |init| && init[i] == k; }
        }
      }
      if Ascending(s) then
        // the new element exceeds everything before it, so it goes last
        AppendAsc(t, s[|s| - 1]);
        t + [s[|s| - 1]]
      else InsertAsc(t, s[|s| - 1])
  }

  /** Appending an element above every element keeps a list ascending, and
      is what `InsertAsc` does with it. */
  lemma AppendAsc(t: seq<int>, x: int)
    requires Ascending(t) && forall k :: k in t ==> k < x
    ensures Ascending(t + [x])
  {
    var r := t + [x];
    forall i, j | 0 <= i < j < |r| ensures r[i] < r[j] {
      assert r[i] == t[i];
      if j < |t| { assert r[j] == t[j]; } else { assert t[i] in t; }
    }
  }

  lemma AscendingNoDup(s: seq<int>)
    requires Ascending(s)
    ensures NoDup(s)
  {
  }

  /** `range(lo, hi + 1)`. */
  function Range(lo: int, hi: int): (r: seq<int>)
    ensures forall x :: x in r <==> lo <= x <= hi
    ensures Ascending(r)
    decreases hi - lo
  {
    if lo > hi then []
    else
      var t := Range(lo + 1, hi);
      AscendingCons(lo, t);
      [lo] + t
  }

  /** The inclusive line range between two edit endpoints, in either order. */
  function EditLines(l1: int, l2: int): (r: seq<int>)
    ensures forall x :: x in r <==> (if l1 <= l2 then l1 <= x <= l2 else l2 <= x <= l1)
  {
    if l1 <= l2 then Range(l1, l2) else Range(l2, l1)
  }

  /** `_invalid_lines = list(set(_invalid_lines + range(r[0], r[1] + 1)))`:
      every line of the edit is dirty afterwards, nothing else is added,
      and no line is listed twice. */
  function AddLines(dirty: seq<int>, l1: int, l2: int): (r: seq<int>)
    ensures Ascending(r) && NoDup(r)
    ensures forall x :: x in r <==> x in dirty || (if l1 <= l2 then l1 <= x <= l2 else l2 <= x <= l1)
  {
    var all := dirty + EditLines(l1, l2);
    assert forall x :: x in all <==> x in dirty || x in EditLines(l1, l2);
    var r := Normalise(all);
    AscendingNoDup(r);
    r
  }

  /** Where a surviving dirty line goes when the lines between `d0` and
      `d1` are deleted. */
  function ShiftLine(x: int, d0: int, d1: int): int {
    if x >= d1 then x - (d1 - d0) else x
  }

  /** The dirty lines after deleting from line `d0` to line `d1`
      (`d0 < d1`): lines strictly between them are dropped and lines from
      `d1` on move up by `d1 - d0`.  Each line is moved on its own, so the
      result does not depend on the list's order. */
  function ShiftDirty(dirty: seq<int>, d0: int, d1: int): (r: seq<int>)
    ensures |r| <= |dirty|
    ensures forall x :: x in r <==> exists y :: y in dirty && (y <= d0 || y >= d1) && x == ShiftLine(y, d0, d1)
  {
    if |dirty| == 0 then []
    else
      var y := dirty[0];
      var rest := ShiftDirty(dirty[1..], d0, d1);
      assert forall z :: z in dirty <==> z == y || z in dirty[1..];
      if y <= d0 || y >= d1 then [ShiftLine(y, d0, d1)] + rest else rest
  }

  /** `bisect.bisect_left` on a list of integers. */
  function BisectLeftInts(s: seq<int>, x: int, lo: nat, hi: nat): (r: nat)
    requires lo <= hi <= |s|
    ensures lo <= r <= hi
    ensures Ascending(s) && (forall i :: 0 <= i < lo ==> s[i] < x) && (forall i :: hi <= i < |s| ==> s[i] >= x) ==>
              (forall i :: 0 <= i < r ==> s[i] < x) && (forall i :: r <= i < |s| ==> s[i] >= x)
    decreases hi - lo
  {
    if lo < hi then
      var mid := (lo + hi) / 2;
      if s[mid] < x then BisectLeftInts(s, x, mid + 1, hi) else BisectLeftInts(s, x, lo, mid)
    else lo
  }

  /** `filter(lambda x: x <= d0 or x >= d1, ...)`. */
  function Keep(dirty: seq<int>, d0: int, d1: int): (r: seq<int>)
    ensures forall x :: x in r <==> x in dirty && (x <= d0 || x >= d1)
    ensures Ascending(dirty) ==> Ascending(r)
  {
    if |dirty| == 0 then []
    else
      var rest := Keep(dirty[1..], d0, d1);
      assert forall z :: z in dirty <==> z == dirty[0] || z in dirty[1..];
      if dirty[0] <= d0 || dirty[0] >= d1 then
        if Ascending(dirty) then
          assert forall k :: k in rest ==> dirty[0] < k by {
            forall k | k in rest ensures dirty[0] < k { var i :| 1 <= i < |dirty| && dirty[i] == k; }
          }
          AscendingCons(dirty[0], rest);
          [dirty[0]] + rest
        else [dirty[0]] + rest
      else rest
  }

  /** The dirty-line update of `on_delete_range_after` as written: filter,
      then shift the entries from the `bisect_left` point for `d1` on, which
      presumes the list is ascending. */
  function ShiftDirtyAsWritten(dirty: seq<int>, d0: int, d1: int): (r: seq<int>)
  {
    var kept := Keep(dirty, d0, d1);
    var idx := BisectLeftInts(kept, d1, 0, |kept|);
    seq(|kept|, i requires 0 <= i < |kept| => if i < idx then kept[i] else kept[i] - (d1 - d0))
  }

  /** On an ascending list the source's update moves every line where
      `ShiftDirty` moves it. */
  lemma ShiftDirtyAsWrittenWhenAscending(dirty: seq<int>, d0: int, d1: int)
    requires Ascending(dirty) && d0 < d1
    ensures forall x :: x in ShiftDirtyAsWritten(dirty, d0, d1) <==> x in ShiftDirty(dirty, d0, d1)
  {
    var kept := Keep(dirty, d0, d1);
    var idx := BisectLeftInts(kept, d1, 0, |kept|);
    var r := ShiftDirtyAsWritten(dirty, d0, d1);
    forall x | x in r ensures x in ShiftDirty(dirty, d0, d1) {
      var i :| 0 <= i < |r| && r[i] == x;
      assert kept[i] in dirty;
    }
    forall x | x in ShiftDirty(dirty, d0, d1) ensures x in r {
      var y :| y in dirty && (y <= d0 || y >= d1) && x == ShiftLine(y, d0, d1);
      assert y in kept;
      var i :| 0 <= i < |kept| && kept[i] == y;
      assert r[i] == x;
    }
  }

  /** In the order CPython gives `list(set([2, 9]))`, namely `[9, 2]`,
      deleting from line 3 to line 5 leaves line 9 where it was, although
      its text is now on line 7. */
  lemma ShiftDirtyAsWrittenMissesLine()
    ensures ShiftDirtyAsWritten([9, 2], 3, 5) == [9, 2]
    ensures 7 in ShiftDirty([9, 2], 3, 5) && 9 !in ShiftDirty([9, 2], 3, 5)
  {
    assert Keep([9, 2], 3, 5) == [9, 2];
    assert BisectLeftInts([9, 2], 5, 0, 2) == 2;
    assert ShiftDirty([9, 2], 3, 5) == [7, 2];
  }

  /** Where a dirty line goes when `diff` lines are inserted after line
      `l`. */
  function InsertedLine(x: int, l: int, diff: nat): int {
    if x > l then x + diff else x
  }

  /** The dirty lines after `diff` lines are inserted after line `l`: the
      lines below move down with their text. */
  function ShiftDirtyOnInsert(dirty: seq<int>, l: int, diff: nat): (r: seq<int>)
    ensures |r| == |dirty| && forall i :: 0 <= i < |dirty| ==> r[i] == InsertedLine(dirty[i], l, diff)
    ensures Ascending(dirty) ==> Ascending(r)
  {
    seq(|dirty|, i requires 0 <= i < |dirty| => InsertedLine(dirty[i], l, diff))
  }

  /** The dirty-line update of `on_insert_text` as written: the lines of the
      insertion become dirty; dirty lines below it stay where they were. */
  function InsertDirtyAsWritten(dirty: seq<int>, l1: int, l2: int): (r: seq<int>)
    ensures forall x :: x in r <==> x in dirty || (if l1 <= l2 then l1 <= x <= l2 else l2 <= x <= l1)
  {
    AddLines(dirty, l1, l2)
  }

  /** The corrected update: dirty lines below the insertion line first move
      with their text, then the lines of the insertion become dirty. */
  function InsertDirty(dirty: seq<int>, l1: int, l2: int): (r: seq<int>)
    requires l1 <= l2
    ensures Ascending(r)
    ensures forall x :: x in r <==> (exists y :: y in dirty && x == InsertedLine(y, l1, l2 - l1)) || l1 <= x <= l2
  {
    var shifted := ShiftDirtyOnInsert(dirty, l1, l2 - l1);
    assert forall x :: x in shifted <==> exists y :: y in dirty && x == InsertedLine(y, l1, l2 - l1) by {
      forall x | x in shifted ensures exists y :: y in dirty && x == InsertedLine(y, l1, l2 - l1) {
        var i :| 0 <= i < |shifted| && shifted[i] == x;
        assert dirty[i] in dirty;
      }
      forall x | exists y :: y in dirty && x == InsertedLine(y, l1, l2 - l1) ensures x in shifted {
        var y :| y in dirty && x == InsertedLine(y, l1, l2 - l1);
        var i :| 0 <= i < |dirty| && dirty[i] == y;
        assert shifted[i] == x;
      }
    }
    AddLines(shifted, l1, l2)
  }

  /** With line 10 dirty, inserting two lines at line 3 moves that text to
      line 12; the update as written leaves line 10 dirty and line 12 clean,
      the corrected one marks line 12 and not line 10. */
  lemma InsertDirtyAsWrittenMissesLine()
    ensures 10 in InsertDirtyAsWritten([10], 3, 5) && 12 !in InsertDirtyAsWritten([10], 3, 5)
    ensures 12 in InsertDirty([10], 3, 5) && 10 !in InsertDirty([10], 3, 5)
  {
    assert InsertedLine(10, 3, 2) == 12;
    assert forall y :: y in [10] ==> InsertedLine(y, 3, 2) == 12;
  }
}
