/** The region index of plugin/jft/Validation.py: the list `_sorted_marks`
    of `SortedMark` entries, ordered by an integer line key, searched with
    `bisect` and shifted on multi-line edits.

    `SortedMark.__cmp__` compares two entries, or an entry and an integer,
    by line key (identity only when `compare_direct` is set, which the
    engine models by comparing ids), so every `bisect` call here compares
    keys. */
module RegionIndex {
  import opened Buffer
  import opened Seqs

  /** A region of the index: its id, the line key, the index of its
      validator, and its start and end marks. */
  datatype Entry = Entry(id: nat, key: int, vi: nat, start: Pos, end: Pos)

  type Index = seq<Entry>

  predicate Sorted(ix: Index) {
    forall i, j :: 0 <= i < j < |ix| ==> ix[i].key <= ix[j].key
  }

  /** Every key is the line its region starts on. */
  predicate KeysTrack(ix: Index) {
    forall i :: 0 <= i < |ix| ==> ix[i].key == ix[i].start.line
  }

  /** The ids of an index, in order. */
  function Ids(ix: Index): (r: seq<nat>)
    ensures |r| == |ix| && forall i :: 0 <= i < |ix| ==> r[i] == ix[i].id
  {
    if |ix| == 0 then [] else [ix[0].id] + Ids(ix[1..])
  }

  /** No two entries share an id, stated over the entries themselves. */
  predicate IdsDistinct(ix: Index) {
    forall i, j :: 0 <= i < j < |ix| ==> ix[i].id != ix[j].id
  }

  lemma IdsDistinctOf(ix: Index)
    requires NoDup(Ids(ix))
    ensures IdsDistinct(ix)
  {
    var ids := Ids(ix);
    forall i, j | 0 <= i < j < |ix| ensures ix[i].id != ix[j].id {
      assert ids[i] != ids[j];
    }
  }

  /** With distinct ids, the rest of a list has distinct ids, none of them
      the first one's. */
  lemma DistinctTail(todo: Index)
    requires |todo| > 0 && IdsDistinct(todo)
    ensures IdsDistinct(todo[1..]) && forall y :: y in todo[1..] ==> y.id != todo[0].id
  {
    var tl := todo[1..];
    forall i, j | 0 <= i < j < |tl| ensures tl[i].id != tl[j].id {
      assert tl[i] == todo[i + 1] && tl[j] == todo[j + 1];
    }
    forall y | y in tl ensures y.id != todo[0].id {
      var i :| 0 <= i < |tl| && tl[i] == y;
      assert todo[i + 1] == y;
    }
  }

  /** `bisect_left(a, x, lo, hi)`: `lo` and `hi` close in on the first key
      not below `x`. */
  function BisectLeftIn(ix: Index, x: int, lo: nat, hi: nat): (r: nat)
    requires lo <= hi <= |ix|
    ensures lo <= r <= hi
    ensures Sorted(ix) && (forall i :: 0 <= i < lo ==> ix[i].key < x) && (forall i :: hi <= i < |ix| ==> ix[i].key >= x) ==>
              (forall i :: 0 <= i < r ==> ix[i].key < x) && (forall i :: r <= i < |ix| ==> ix[i].key >= x)
    decreases hi - lo
  {
    if lo < hi then
      var mid := (lo + hi) / 2;
      if ix[mid].key < x then
        assert Sorted(ix) ==> forall i :: 0 <= i <= mid ==> ix[i].key <= ix[mid].key;
        BisectLeftIn(ix, x, mid + 1, hi)
      else
        assert Sorted(ix) ==> forall i :: mid <= i < |ix| ==> ix[mid].key <= ix[i].key;
        BisectLeftIn(ix, x, lo, mid)
    else lo
  }

  /** `bisect_right(a, x, lo, hi)`: `lo` and `hi` close in on the first key
      above `x`. */
  function BisectRightIn(ix: Index, x: int, lo: nat, hi: nat): (r: nat)
    requires lo <= hi <= |ix|
    ensures lo <= r <= hi
    ensures Sorted(ix) && (forall i :: 0 <= i < lo ==> ix[i].key <= x) && (forall i :: hi <= i < |ix| ==> ix[i].key > x) ==>
              (forall i :: 0 <= i < r ==> ix[i].key <= x) && (forall i :: r <= i < |ix| ==> ix[i].key > x)
    decreases hi - lo
  {
    if lo < hi then
      var mid := (lo + hi) / 2;
      if x < ix[mid].key then
        assert Sorted(ix) ==> forall i :: mid <= i < |ix| ==> ix[mid].key <= ix[i].key;
        BisectRightIn(ix, x, lo, mid)
      else
        assert Sorted(ix) ==> forall i :: 0 <= i <= mid ==> ix[i].key <= ix[mid].key;
        BisectRightIn(ix, x, mid + 1, hi)
    else lo
  }

  /** `bisect.bisect_left(ix, x)`: on a sorted index, the entries before the
      result have keys below `x` and the rest do not. */
  function BisectLeft(ix: Index, x: int): (r: nat)
    ensures r <= |ix|
    ensures Sorted(ix) ==> (forall i :: 0 <= i < r ==> ix[i].key < x) && (forall i :: r <= i < |ix| ==> ix[i].key >= x)
  {
    BisectLeftIn(ix, x, 0, |ix|)
  }

  /** `bisect.bisect_right(ix, x)`: on a sorted index, the entries before
      the result have keys at most `x` and the rest above it. */
  function BisectRight(ix: Index, x: int): (r: nat)
    ensures r <= |ix|
    ensures Sorted(ix) ==> (forall i :: 0 <= i < r ==> ix[i].key <= x) && (forall i :: r <= i < |ix| ==> ix[i].key > x)
  {
    BisectRightIn(ix, x, 0, |ix|)
  }

  /** `bisect.insort(ix, e)`: `e` goes in at the `bisect_right` point, after
      every entry whose key is not above its own; nothing else moves. */
  function Insort(ix: Index, e: Entry): (r: Index)
    ensures |r| == |ix| + 1
    ensures multiset(r) == multiset(ix) + multiset{e}
    ensures var k := BisectRight(ix, e.key);
            r[k] == e && r[..k] == ix[..k] && r[k + 1..] == ix[k..]
  {
    var k := BisectRight(ix, e.key);
    var r := ix[..k] + [e] + ix[k..];
    assert ix == ix[..k] + ix[k..];
    assert r[k] == e && r[..k] == ix[..k] && r[k + 1..] == ix[k..];
    r
  }

  /** Insertion keeps a sorted index sorted, and the new entry follows every
      entry with the same key. */
  lemma InsortSorted(ix: Index, e: Entry)
    requires Sorted(ix)
    ensures Sorted(Insort(ix, e))
    ensures var k := BisectRight(ix, e.key);
            (forall i :: 0 <= i < k ==> Insort(ix, e)[i].key <= e.key) &&
            (forall i :: k < i < |ix| + 1 ==> Insort(ix, e)[i].key > e.key)
  {
    var k := BisectRight(ix, e.key);
    var r := Insort(ix, e);
    InsortPlaces(ix, e, k, r);
    SortedAround(ix, e, k, r);
  }

  /** Where each old entry lands after the insertion. */
  lemma InsortPlaces(ix: Index, e: Entry, k: nat, r: Index)
    requires k <= |ix| && |r| == |ix| + 1 && r[k] == e && r[..k] == ix[..k] && r[k + 1..] == ix[k..]
    ensures forall i :: 0 <= i < k ==> r[i] == ix[i]
    ensures forall i :: k < i < |r| ==> r[i] == ix[i - 1]
  {
    forall i | 0 <= i < k ensures r[i] == ix[i] { assert r[..k][i] == r[i]; }
    forall i | k < i < |r| ensures r[i] == ix[i - 1] { assert r[k + 1..][i - k - 1] == r[i]; }
  }

  /** A sorted index with `e` placed between the keys not above it and the
      keys above it is sorted. */
  lemma SortedAround(ix: Index, e: Entry, k: nat, r: Index)
    requires Sorted(ix) && k <= |ix| && |r| == |ix| + 1 && r[k] == e
    requires forall i :: 0 <= i < k ==> ix[i].key <= e.key
    requires forall i :: k <= i < |ix| ==> ix[i].key > e.key
    requires forall i :: 0 <= i < k ==> r[i] == ix[i]
    requires forall i :: k < i < |r| ==> r[i] == ix[i - 1]
    ensures Sorted(r)
    ensures forall i :: 0 <= i < k ==> r[i].key <= e.key
    ensures forall i :: k < i < |r| ==> r[i].key > e.key
  {
  }

  /** An entry whose key is at most every key of a sorted index can go in
      front of it. */
  lemma SortedCons(x: Entry, t: Index)
    requires Sorted(t) && forall y :: y in t ==> x.key <= y.key
    ensures Sorted([x] + t)
  {
    var r := [x] + t;
    forall i, j | 0 <= i < j < |r| ensures r[i].key <= r[j].key {
      assert r[j] == t[j - 1] && t[j - 1] in t;
      if i > 0 { assert r[i] == t[i - 1]; }
    }
  }

  /** Two sorted indexes, every key of the first at most every key of the
      second, make a sorted index. */
  lemma SortedAppend(a: Index, b: Index)
    requires Sorted(a) && Sorted(b) && forall x, y :: x in a && y in b ==> x.key <= y.key
    ensures Sorted(a + b)
  {
    var r := a + b;
    forall i, j | 0 <= i < j < |r| ensures r[i].key <= r[j].key {
      if j < |a| { assert r[i] == a[i] && r[j] == a[j]; }
      else if i >= |a| { assert r[i] == b[i - |a|] && r[j] == b[j - |a|]; }
      else { assert r[i] == a[i] && r[j] == b[j - |a|]; assert a[i] in a && b[j - |a|] in b; }
    }
  }

  /** The entries from `idx` on whose start mark is on `line`, up to the
      first one that is not. */
  function TakeRun(ix: Index, idx: nat, line: int): (r: seq<Entry>)
    requires idx <= |ix|
    ensures idx + |r| <= |ix| && r == ix[idx..idx + |r|]
    ensures forall k :: 0 <= k < |r| ==> r[k].start.line == line
    ensures idx + |r| < |ix| ==> ix[idx + |r|].start.line != line
    decreases |ix| - idx
  {
    if idx < |ix| && ix[idx].start.line == line then [ix[idx]] + TakeRun(ix, idx + 1, line) else []
  }

  /** `_find_possible_active(line)`: nothing on an empty index; otherwise the
      contiguous run of entries starting at the first key not below `line`
      whose regions start on `line`. */
  function FindPossibleActive(ix: Index, line: int): (r: seq<Entry>)
    ensures |ix| == 0 ==> r == []
    ensures var b := BisectLeft(ix, line);
            b + |r| <= |ix| && r == ix[b..b + |r|] &&
            (forall k :: 0 <= k < |r| ==> r[k].start.line == line) &&
            (b + |r| < |ix| ==> ix[b + |r|].start.line != line)
  {
    if |ix| == 0 then [] else TakeRun(ix, BisectLeft(ix, line), line)
  }

  /** The entries whose region starts on `line`, in index order. */
  function OnLine(ix: Index, line: int): (r: seq<Entry>)
    ensures forall e :: e in r <==> e in ix && e.start.line == line
  {
    if |ix| == 0 then []
    else (if ix[0].start.line == line then [ix[0]] else []) + OnLine(ix[1..], line)
  }

  /** On a sorted index whose keys are the regions' lines,
      `_find_possible_active(line)` finds exactly the regions that start on
      `line`, in index order. */
  lemma FindPossibleActiveComplete(ix: Index, line: int)
    requires Sorted(ix) && KeysTrack(ix)
    ensures FindPossibleActive(ix, line) == OnLine(ix, line)
  {
    var b := BisectLeft(ix, line);
    var r := FindPossibleActive(ix, line);
    var c := b + |r|;
    assert forall i :: c <= i < |ix| ==> ix[i].key >= line;
    assert c < |ix| ==> ix[c].start.line != line;
    forall k | b <= k < c ensures ix[k].start.line == line {
      assert ix[k] == r[k - b];
    }
    BeforeRunNone(ix, b, line);
    AfterRunNone(ix, c, line);
    RunAll(ix, b, c, line);
    OnLineThree(ix, b, c, line);
  }

  /** The entries before the first key not below `line` start above it. */
  lemma BeforeRunNone(ix: Index, b: nat, line: int)
    requires KeysTrack(ix) && b <= |ix|
    requires forall i :: 0 <= i < b ==> ix[i].key < line
    ensures OnLine(ix[..b], line) == []
  {
    OnLineNone(ix[..b], line);
  }

  /** Past the end of the run, a sorted index holds no entry on `line`. */
  lemma AfterRunNone(ix: Index, c: nat, line: int)
    requires Sorted(ix) && KeysTrack(ix) && c <= |ix|
    requires forall i :: c <= i < |ix| ==> ix[i].key >= line
    requires c < |ix| ==> ix[c].start.line != line
    ensures OnLine(ix[c..], line) == []
  {
    var t := ix[c..];
    forall k | 0 <= k < |t| ensures t[k].start.line != line {
      assert ix[c].key <= ix[c + k].key;
    }
    OnLineNone(t, line);
  }

  /** A run whose entries all start on `line` is kept whole. */
  lemma RunAll(ix: Index, b: nat, c: nat, line: int)
    requires b <= c <= |ix|
    requires forall k :: b <= k < c ==> ix[k].start.line == line
    ensures OnLine(ix[b..c], line) == ix[b..c]
  {
    OnLineAll(ix[b..c], line);
  }

  /** `OnLine` over the three parts `[..b]`, `[b..c]`, `[c..]`, when only
      the middle one contributes. */
  lemma OnLineThree(ix: Index, b: nat, c: nat, line: int)
    requires b <= c <= |ix|
    requires OnLine(ix[..b], line) == [] && OnLine(ix[c..], line) == []
    requires OnLine(ix[b..c], line) == ix[b..c]
    ensures OnLine(ix, line) == ix[b..c]
  {
    var mid := ix[b..];
    assert mid[..c - b] == ix[b..c] && mid[c - b..] == ix[c..];
    OnLineSplit(mid, c - b, line);
    assert OnLine(mid, line) == ix[b..c] + [];
    OnLineSplit(ix, b, line);
    assert OnLine(ix, line) == [] + OnLine(mid, line);
  }

  /** `OnLine` distributes over a split of the index. */
  lemma {:induction false} OnLineSplit(ix: Index, k: nat, line: int)
    requires k <= |ix|
    ensures OnLine(ix, line) == OnLine(ix[..k], line) + OnLine(ix[k..], line)
  {
    if k > 0 {
      OnLineSplit(ix[1..], k - 1, line);
      assert ix[1..][..k - 1] == ix[..k][1..];
      assert ix[1..][k - 1..] == ix[k..];
    } else {
      assert ix[..0] == [];
      assert ix[0..] == ix;
    }
  }

  lemma {:induction false} OnLineAll(r: Index, line: int)
    requires forall k :: 0 <= k < |r| ==> r[k].start.line == line
    ensures OnLine(r, line) == r
  {
    if |r| > 0 { OnLineAll(r[1..], line); }
  }

  lemma {:induction false} OnLineNone(r: Index, line: int)
    requires forall k :: 0 <= k < |r| ==> r[k].start.line != line
    ensures OnLine(r, line) == []
  {
    if |r| > 0 { OnLineNone(r[1..], line); }
  }

  /** With distinct ids, `_find_possible_active` offers each region once. */
  lemma FindPossibleActiveDistinct(ix: Index, line: int)
    requires NoDup(Ids(ix))
    ensures NoDup(FindPossibleActive(ix, line))
  {
    var s, b, ids := FindPossibleActive(ix, line), BisectLeft(ix, line), Ids(ix);
    forall i, j | 0 <= i < j < |s| ensures s[i] != s[j] {
      assert s[i] == ix[b..b + |s|][i] && s[j] == ix[b..b + |s|][j];
      assert ids[b + i] != ids[b + j];
    }
  }

  /** `for i in range(idx, len(ix)): ix[i].line += diff`. */
  function ShiftFrom(ix: Index, idx: nat, diff: int): (r: Index)
    ensures |r| == |ix|
    ensures forall i :: 0 <= i < |ix| && i < idx ==> r[i] == ix[i]
    ensures forall i :: idx <= i < |ix| ==> r[i] == ix[i].(key := ix[i].key + diff)
  {
    seq(|ix|, i requires 0 <= i < |ix| => if i < idx then ix[i] else ix[i].(key := ix[i].key + diff))
  }
}
