/** How the region index of plugin/jft/Validation.py follows edits of the
    buffer.  The buffer itself moves the regions' marks (and the tags on
    their text); `on_insert_text` and `on_delete_range_after` then bring the
    integer line keys of `_sorted_marks` up to date.

    For each handler there is the key update as written, and a corrected
    one that keeps every key equal to the line its region starts on while
    keeping the index sorted. */
module Edits {
  import opened Seqs
  import opened Buffer
  import opened RegionIndex

  // ---------------------------------------------------------------------
  // Insertion

  /** A region's marks after text is inserted at `at`, ending at `loc`: the
      start mark has left gravity and the end mark right gravity, as
      `create_mark_range` makes them. */
  function MoveEntryOnInsert(y: Entry, at: Pos, loc: Pos): Entry {
    y.(start := MoveOnInsert(y.start, at, loc, false), end := MoveOnInsert(y.end, at, loc, true))
  }

  /** The index after the buffer has moved the marks; keys are untouched. */
  function MarksOnInsert(ix: Index, at: Pos, loc: Pos): (r: Index)
    ensures |r| == |ix| && forall i :: 0 <= i < |ix| ==> r[i] == MoveEntryOnInsert(ix[i], at, loc)
  {
    seq(|ix|, i requires 0 <= i < |ix| => MoveEntryOnInsert(ix[i], at, loc))
  }

  /** A region moved by the insertion and keyed by its new start line. */
  function Moved(y: Entry, at: Pos, loc: Pos): Entry {
    var z := MoveEntryOnInsert(y, at, loc);
    z.(key := z.start.line)
  }

  /** Where the start line of a region goes: lines before the insertion
      stay, lines after it move down by the lines inserted, and a start on
      the insertion line stays or moves to the last inserted line. */
  lemma InsertLine(p: Pos, at: Pos, loc: Pos)
    requires Le(at, loc)
    ensures var q := MoveOnInsert(p, at, loc, false);
            (p.line < at.line ==> q.line == p.line) &&
            (p.line == at.line ==> q.line == at.line || q.line == loc.line) &&
            (p.line > at.line ==> q.line == p.line + (loc.line - at.line))
  {
  }

  /** The key update of `on_insert_text` as written: when lines were
      inserted, the keys from the `bisect_right` point for the line after
      the insertion line on are moved down. */
  function InsertKeysAsWritten(ix: Index, at: Pos, loc: Pos): (r: Index)
    ensures |r| == |ix|
    ensures forall i :: 0 <= i < |ix| ==> r[i] == ix[i].(key := r[i].key)
    ensures Sorted(ix) ==> forall i :: 0 <= i < |ix| ==>
              r[i].key == if loc.line > at.line && ix[i].key > at.line + 1 then ix[i].key + (loc.line - at.line) else ix[i].key
  {
    var diff := loc.line - at.line;
    if diff > 0 then ShiftFrom(ix, BisectRight(ix, at.line + 1), diff) else ix
  }

  /** Which block of the corrected index an entry keyed by its new start
      line goes to: above the insertion line, on it, on the inserted lines,
      or below them. */
  function Block(y: Entry, at: Pos, loc: Pos): nat {
    if y.key < at.line then 0 else if y.key == at.line then 1 else if y.key <= loc.line then 2 else 3
  }

  /** The entries of block `k`, in index order. */
  function Pick(s: Index, at: Pos, loc: Pos, k: nat): (r: Index)
  {
    if |s| == 0 then [] else (if Block(s[0], at, loc) == k then [s[0]] else []) + Pick(s[1..], at, loc, k)
  }

  /** Block `k` holds the entries of `s` in block `k`. */
  lemma {:induction false} PickMembers(s: Index, at: Pos, loc: Pos, k: nat)
    ensures forall y :: y in Pick(s, at, loc, k) <==> y in s && Block(y, at, loc) == k
  {
    if |s| > 0 {
      PickMembers(s[1..], at, loc, k);
      assert forall y :: y in s <==> y == s[0] || y in s[1..];
    }
  }

  /** Every key set to its region's start line. */
  function Rekey(ix: Index): (r: Index)
    ensures |r| == |ix| && forall i :: 0 <= i < |ix| ==> r[i] == ix[i].(key := ix[i].start.line)
  {
    seq(|ix|, i requires 0 <= i < |ix| => ix[i].(key := ix[i].start.line))
  }

  /** The corrected key update of `on_insert_text`: when lines were
      inserted, every region is keyed by the line it now starts on, and the
      regions whose start left the insertion line move after those that
      stayed, so the index stays sorted. */
  function InsertKeys(ix: Index, at: Pos, loc: Pos): (r: Index)
  {
    if loc.line - at.line > 0 then
      var m := Rekey(ix);
      Pick(m, at, loc, 0) + Pick(m, at, loc, 1) + Pick(m, at, loc, 2) + Pick(m, at, loc, 3)
    else ix
  }

  /** The multiset of a non-empty index splits off its first entry. */
  lemma MultisetCons(s: Index)
    requires |s| > 0
    ensures multiset(s) == multiset{s[0]} + multiset(s[1..])
  {
    assert s == [s[0]] + s[1..];
  }

  /** Block `k` of a non-empty index, its first entry aside. */
  lemma PickCons(s: Index, at: Pos, loc: Pos, k: nat)
    requires |s| > 0
    ensures multiset(Pick(s, at, loc, k)) == (if Block(s[0], at, loc) == k then multiset{s[0]} else multiset{}) + multiset(Pick(s[1..], at, loc, k))
  {
  }

  /** Adding an element to one of four multisets adds it to their sum. */
  lemma AddToOne(q0: multiset<Entry>, q1: multiset<Entry>, q2: multiset<Entry>, q3: multiset<Entry>,
                 p0: multiset<Entry>, p1: multiset<Entry>, p2: multiset<Entry>, p3: multiset<Entry>, x: Entry, b: nat)
    requires b < 4
    requires q0 == (if b == 0 then multiset{x} else multiset{}) + p0
    requires q1 == (if b == 1 then multiset{x} else multiset{}) + p1
    requires q2 == (if b == 2 then multiset{x} else multiset{}) + p2
    requires q3 == (if b == 3 then multiset{x} else multiset{}) + p3
    ensures q0 + q1 + q2 + q3 == multiset{x} + (p0 + p1 + p2 + p3)
  {
    if b == 0 { assert q1 == p1 && q2 == p2 && q3 == p3; }
    else if b == 1 { assert q0 == p0 && q2 == p2 && q3 == p3; }
    else if b == 2 { assert q0 == p0 && q1 == p1 && q3 == p3; }
    else { assert q0 == p0 && q1 == p1 && q2 == p2; }
  }

  /** The four blocks together hold the entries of `s`, each once. */
  lemma {:induction false} PickPerm(s: Index, at: Pos, loc: Pos)
    ensures multiset(Pick(s, at, loc, 0) + Pick(s, at, loc, 1) + Pick(s, at, loc, 2) + Pick(s, at, loc, 3)) == multiset(s)
  {
    if |s| > 0 {
      var t := s[1..];
      PickPerm(t, at, loc);
      PickCons(s, at, loc, 0);
      PickCons(s, at, loc, 1);
      PickCons(s, at, loc, 2);
      PickCons(s, at, loc, 3);
      MultisetCons(s);
      var p0, p1, p2, p3 := Pick(t, at, loc, 0), Pick(t, at, loc, 1), Pick(t, at, loc, 2), Pick(t, at, loc, 3);
      var q0, q1, q2, q3 := Pick(s, at, loc, 0), Pick(s, at, loc, 1), Pick(s, at, loc, 2), Pick(s, at, loc, 3);
      assert multiset(q0 + q1 + q2 + q3) == multiset(q0) + multiset(q1) + multiset(q2) + multiset(q3);
      assert multiset(p0 + p1 + p2 + p3) == multiset(p0) + multiset(p1) + multiset(p2) + multiset(p3);
      AddToOne(multiset(q0), multiset(q1), multiset(q2), multiset(q3),
               multiset(p0), multiset(p1), multiset(p2), multiset(p3), s[0], Block(s[0], at, loc));
    }
  }

  /** A block is sorted when the entries of that block are in key order in
      `s`. */
  lemma {:induction false} PickSorted(s: Index, at: Pos, loc: Pos, k: nat)
    requires forall i, j :: 0 <= i < j < |s| && Block(s[i], at, loc) == k && Block(s[j], at, loc) == k ==> s[i].key <= s[j].key
    ensures Sorted(Pick(s, at, loc, k))
  {
    if |s| > 0 {
      var t := s[1..];
      assert forall i, j :: 0 <= i < j < |t| && Block(t[i], at, loc) == k && Block(t[j], at, loc) == k ==> t[i].key <= t[j].key by {
        forall i, j | 0 <= i < j < |t| && Block(t[i], at, loc) == k && Block(t[j], at, loc) == k ensures t[i].key <= t[j].key {
          assert t[i] == s[i + 1] && t[j] == s[j + 1];
        }
      }
      PickSorted(t, at, loc, k);
      PickMembers(t, at, loc, k);
      if Block(s[0], at, loc) == k {
        forall y | y in Pick(t, at, loc, k) ensures s[0].key <= y.key {
          var j :| 0 <= j < |t| && t[j] == y;
          assert s[j + 1] == y;
        }
        SortedCons(s[0], Pick(t, at, loc, k));
      }
    }
  }

  /** Within every block the moved and rekeyed index is in key order. */
  lemma BlocksInOrder(ix: Index, at: Pos, loc: Pos, k: nat)
    requires Sorted(ix) && KeysTrack(ix) && Le(at, loc)
    ensures var m := Rekey(MarksOnInsert(ix, at, loc));
            forall i, j :: 0 <= i < j < |m| && Block(m[i], at, loc) == k && Block(m[j], at, loc) == k ==> m[i].key <= m[j].key
  {
    var m := Rekey(MarksOnInsert(ix, at, loc));
    forall i, j | 0 <= i < j < |m| && Block(m[i], at, loc) == k && Block(m[j], at, loc) == k ensures m[i].key <= m[j].key {
      InsertLine(ix[i].start, at, loc);
      InsertLine(ix[j].start, at, loc);
      assert ix[i].key <= ix[j].key;
    }
  }

  /** The blocks of any index come in key order. */
  lemma BlocksSorted(m: Index, at: Pos, loc: Pos)
    requires forall k: nat :: Sorted(Pick(m, at, loc, k))
    ensures Sorted(Pick(m, at, loc, 0) + Pick(m, at, loc, 1) + Pick(m, at, loc, 2) + Pick(m, at, loc, 3))
  {
    var p0, p1, p2, p3 := Pick(m, at, loc, 0), Pick(m, at, loc, 1), Pick(m, at, loc, 2), Pick(m, at, loc, 3);
    assert Sorted(p0) && Sorted(p1) && Sorted(p2) && Sorted(p3);
    PickMembers(m, at, loc, 0);
    PickMembers(m, at, loc, 1);
    PickMembers(m, at, loc, 2);
    PickMembers(m, at, loc, 3);
    SortedAppend(p0, p1);
    assert forall x :: x in p0 + p1 ==> x in p0 || x in p1;
    SortedAppend(p0 + p1, p2);
    assert forall x :: x in p0 + p1 + p2 ==> x in p0 + p1 || x in p2;
    SortedAppend(p0 + p1 + p2, p3);
  }

  /** A rearrangement of an index with distinct ids has distinct ids. */
  lemma IdsPerm(m: Index, r: Index)
    requires NoDup(Ids(m)) && multiset(r) == multiset(m)
    ensures NoDup(Ids(r))
  {
    var mids, rids := Ids(m), Ids(r);
    assert NoDup(m) by {
      forall i, j | 0 <= i < j < |m| ensures m[i] != m[j] { assert mids[i] != mids[j]; }
    }
    PermNoDup(m, r);
    forall i, j | 0 <= i < j < |r| ensures rids[i] != rids[j] {
      assert r[i] in multiset(m) && r[j] in multiset(m);
      var p :| 0 <= p < |m| && m[p] == r[i];
      var q :| 0 <= q < |m| && m[q] == r[j];
      if p != q { assert mids[p] != mids[q]; }
    }
  }

  /** Moving marks and rekeying leave the ids where they were. */
  lemma InsertIds(ix: Index, at: Pos, loc: Pos)
    ensures Ids(Rekey(MarksOnInsert(ix, at, loc))) == Ids(ix)
  {
    var m := Rekey(MarksOnInsert(ix, at, loc));
    assert forall i :: 0 <= i < |ix| ==> Ids(m)[i] == Ids(ix)[i];
  }

  /** Without new lines, moving the marks does not change their lines. */
  lemma SameLineInsert(ix: Index, at: Pos, loc: Pos)
    requires KeysTrack(ix) && Le(at, loc) && loc.line == at.line
    ensures MarksOnInsert(ix, at, loc) == Rekey(MarksOnInsert(ix, at, loc))
  {
    var m := MarksOnInsert(ix, at, loc);
    forall i | 0 <= i < |ix| ensures m[i].key == m[i].start.line {
      InsertLine(ix[i].start, at, loc);
    }
  }

  /** With the corrected update, an insertion keeps the index sorted, every
      key equal to its region's start line and the ids distinct; the index
      holds exactly the moved regions. */
  lemma InsertKeysKeeps(ix: Index, at: Pos, loc: Pos)
    requires Sorted(ix) && KeysTrack(ix) && NoDup(Ids(ix)) && Le(at, loc)
    ensures var r := InsertKeys(MarksOnInsert(ix, at, loc), at, loc);
            Sorted(r) && KeysTrack(r) && NoDup(Ids(r)) &&
            multiset(r) == multiset(Rekey(MarksOnInsert(ix, at, loc)))
  {
    var mk := MarksOnInsert(ix, at, loc);
    var m := Rekey(mk);
    var r := InsertKeys(mk, at, loc);
    InsertIds(ix, at, loc);
    if loc.line - at.line > 0 {
      forall k: nat ensures Sorted(Pick(m, at, loc, k)) {
        BlocksInOrder(ix, at, loc, k);
        PickSorted(m, at, loc, k);
      }
      BlocksSorted(m, at, loc);
      PickPerm(m, at, loc);
      IdsPerm(m, r);
      forall i | 0 <= i < |r| ensures r[i].key == r[i].start.line {
        assert r[i] in multiset(m);
      }
    } else {
      SameLineInsert(ix, at, loc);
      forall i, j | 0 <= i < j < |m| ensures m[i].key <= m[j].key {
        InsertLine(ix[i].start, at, loc);
        InsertLine(ix[j].start, at, loc);
        assert ix[i].key <= ix[j].key;
      }
    }
  }

  /** The membership form of `InsertKeysKeeps`: an entry is in the
      corrected index exactly when it is a region of the old index, moved
      and keyed by its new start line. */
  lemma InsertKeysMembers(ix: Index, at: Pos, loc: Pos)
    requires Sorted(ix) && KeysTrack(ix) && NoDup(Ids(ix)) && Le(at, loc)
    ensures forall y :: y in InsertKeys(MarksOnInsert(ix, at, loc), at, loc) <==> exists z :: z in ix && y == Moved(z, at, loc)
  {
    InsertKeysKeeps(ix, at, loc);
    var m := Rekey(MarksOnInsert(ix, at, loc));
    var r := InsertKeys(MarksOnInsert(ix, at, loc), at, loc);
    forall y ensures y in r <==> exists z :: z in ix && y == Moved(z, at, loc) {
      assert y in r <==> y in multiset(m);
      if y in m {
        var i :| 0 <= i < |m| && m[i] == y;
        assert y == Moved(ix[i], at, loc);
      }
      if exists z :: z in ix && y == Moved(z, at, loc) {
        var z :| z in ix && y == Moved(z, at, loc);
        var i :| 0 <= i < |ix| && ix[i] == z;
        assert m[i] == y;
      }
    }
  }

  /** Inserting a newline at the end of line 3 moves a region starting on
      line 4 down to line 5, but the update as written leaves its key at 4
      (the `bisect_right` point for 4 is past it), so
      `_find_possible_active(5)` no longer finds it. */
  lemma InsertKeysAsWrittenMissesNextLine()
    ensures var ix := [Entry(0, 4, 0, Pos(4, 0), Pos(4, 3))];
            var r := InsertKeysAsWritten(MarksOnInsert(ix, Pos(3, 5), Pos(4, 0)), Pos(3, 5), Pos(4, 0));
            Sorted(ix) && KeysTrack(ix) &&
            r[0].start.line == 5 && r[0].key == 4 && !KeysTrack(r) &&
            FindPossibleActive(r, 5) == [] && OnLine(r, 5) == r
  {
    var ix := [Entry(0, 4, 0, Pos(4, 0), Pos(4, 3))];
    var mk := MarksOnInsert(ix, Pos(3, 5), Pos(4, 0));
    assert mk[0] == Entry(0, 4, 0, Pos(5, 0), Pos(5, 3));
    assert BisectRight(mk, 4) == 1;
    var r := InsertKeysAsWritten(mk, Pos(3, 5), Pos(4, 0));
    assert r == mk;
    assert BisectLeft(r, 5) == 1;
  }

  /** Breaking line 3 at column 2 moves a region starting at column 4 of
      that line to line 4; the update as written never touches keys of the
      insertion line, so the region keeps key 3 and
      `_find_possible_active(4)` misses it. */
  lemma InsertKeysAsWrittenMissesSameLine()
    ensures var ix := [Entry(0, 3, 0, Pos(3, 4), Pos(3, 7))];
            var r := InsertKeysAsWritten(MarksOnInsert(ix, Pos(3, 2), Pos(4, 0)), Pos(3, 2), Pos(4, 0));
            Sorted(ix) && KeysTrack(ix) &&
            r[0].start == Pos(4, 2) && r[0].key == 3 && !KeysTrack(r) &&
            FindPossibleActive(r, 4) == [] && OnLine(r, 4) == r
  {
    var ix := [Entry(0, 3, 0, Pos(3, 4), Pos(3, 7))];
    var mk := MarksOnInsert(ix, Pos(3, 2), Pos(4, 0));
    assert mk[0] == Entry(0, 3, 0, Pos(4, 2), Pos(4, 5));
    assert BisectRight(mk, 4) == 1;
    var r := InsertKeysAsWritten(mk, Pos(3, 2), Pos(4, 0));
    assert r == mk;
    assert BisectLeft(r, 4) == 1;
  }

  // ---------------------------------------------------------------------
  // Deletion

  /** A region's marks after the text in `[a, b)` is deleted. */
  function MoveEntryOnDelete(y: Entry, a: Pos, b: Pos): Entry {
    y.(start := MoveOnDelete(y.start, a, b), end := MoveOnDelete(y.end, a, b))
  }

  /** The index after the buffer has moved the marks; keys are untouched. */
  function MarksOnDelete(ix: Index, a: Pos, b: Pos): (r: Index)
    ensures |r| == |ix| && forall i :: 0 <= i < |ix| ==> r[i] == MoveEntryOnDelete(ix[i], a, b)
  {
    seq(|ix|, i requires 0 <= i < |ix| => MoveEntryOnDelete(ix[i], a, b))
  }

  /** Where line `k` goes when the text from line `d0` to line `d1` is
      deleted: lines up to `d0` stay, lines inside the deleted range join
      `d0`, and later lines move up. */
  function KeyAfterDelete(k: int, d0: int, d1: int): int {
    if k <= d0 then k else if k < d1 then d0 else k - (d1 - d0)
  }

  /** A deletion moves every mark to the line `KeyAfterDelete` names for
      its old line, whatever its column. */
  lemma DeleteLine(p: Pos, a: Pos, b: Pos)
    requires Le(a, b)
    ensures MoveOnDelete(p, a, b).line == KeyAfterDelete(p.line, a.line, b.line)
  {
  }

  /** The new line of a mark only grows with the old one. */
  lemma KeyAfterDeleteMonotone(k: int, l: int, d0: int, d1: int)
    requires k <= l && d0 <= d1
    ensures KeyAfterDelete(k, d0, d1) <= KeyAfterDelete(l, d0, d1)
  {
  }

  /** The key update of `on_delete_range_after` as written: when lines
      were deleted, the keys from the `bisect_left` point for the last
      deleted line on are moved up. */
  function DeleteKeysAsWritten(ix: Index, d0: int, d1: int): (r: Index)
    ensures |r| == |ix|
    ensures forall i :: 0 <= i < |ix| ==> r[i] == ix[i].(key := r[i].key)
    ensures Sorted(ix) ==> forall i :: 0 <= i < |ix| ==>
              r[i].key == if d1 > d0 && ix[i].key >= d1 then ix[i].key - (d1 - d0) else ix[i].key
  {
    if d1 - d0 > 0 then ShiftFrom(ix, BisectLeft(ix, d1), -(d1 - d0)) else ix
  }

  /** The corrected key update: every key goes where its line went, so
      regions that started inside the deleted range are keyed by its first
      line. */
  function DeleteKeys(ix: Index, d0: int, d1: int): (r: Index)
    ensures |r| == |ix|
    ensures forall i :: 0 <= i < |ix| ==> r[i] == ix[i].(key := KeyAfterDelete(ix[i].key, d0, d1))
  {
    seq(|ix|, i requires 0 <= i < |ix| => ix[i].(key := KeyAfterDelete(ix[i].key, d0, d1)))
  }

  /** With the corrected update, a deletion keeps the index sorted, every
      key equal to its region's start line, and each position holding the
      same region with its marks moved. */
  lemma DeleteKeysKeeps(ix: Index, a: Pos, b: Pos)
    requires Sorted(ix) && KeysTrack(ix) && Le(a, b)
    ensures var r := DeleteKeys(MarksOnDelete(ix, a, b), a.line, b.line);
            Sorted(r) && KeysTrack(r) && Ids(r) == Ids(ix) &&
            forall i :: 0 <= i < |ix| ==> r[i] == MoveEntryOnDelete(ix[i], a, b).(key := r[i].start.line)
  {
    var r := DeleteKeys(MarksOnDelete(ix, a, b), a.line, b.line);
    forall i | 0 <= i < |ix| ensures r[i].key == r[i].start.line {
      DeleteLine(ix[i].start, a, b);
    }
    forall i, j | 0 <= i < j < |r| ensures r[i].key <= r[j].key {
      KeyAfterDeleteMonotone(ix[i].key, ix[j].key, a.line, b.line);
    }
    assert forall i :: 0 <= i < |ix| ==> Ids(r)[i] == Ids(ix)[i];
  }

  /** Deleting from line 2 to the start of line 5 pulls a region of line
      4 and one of line 5 both onto line 2; the update as written only
      moves the second one's key (the `bisect_left` point for 5 is after
      the first), giving the keys 4 and 2 out of order, where the corrected
      update gives 2 and 2. */
  lemma DeleteKeysAsWrittenUnsorts()
    ensures var ix := [Entry(0, 4, 0, Pos(4, 0), Pos(4, 3)), Entry(1, 5, 0, Pos(5, 0), Pos(5, 3))];
            var mk := MarksOnDelete(ix, Pos(2, 0), Pos(5, 0));
            Sorted(ix) && KeysTrack(ix) &&
            Keys(DeleteKeysAsWritten(mk, 2, 5)) == [4, 2] && !Sorted(DeleteKeysAsWritten(mk, 2, 5)) &&
            Keys(DeleteKeys(mk, 2, 5)) == [2, 2]
  {
    var ix := [Entry(0, 4, 0, Pos(4, 0), Pos(4, 3)), Entry(1, 5, 0, Pos(5, 0), Pos(5, 3))];
    var mk := MarksOnDelete(ix, Pos(2, 0), Pos(5, 0));
    assert mk[0].key == 4 && mk[1].key == 5;
    assert BisectLeft(mk, 5) == 1;
    var r := DeleteKeysAsWritten(mk, 2, 5);
    assert r[0].key == 4 && r[1].key == 2;
  }

  /** The keys of an index, in order. */
  function Keys(ix: Index): (r: seq<int>)
    ensures |r| == |ix| && forall i :: 0 <= i < |ix| ==> r[i] == ix[i].key
  {
    seq(|ix|, i requires 0 <= i < |ix| => ix[i].key)
  }
}
