/** The validation engine of plugin/jft/Validation.py: the region index,
    the dirty-line scheduler, the edit handlers, the revalidation pass, the
    cursor tracker, and shutdown and save handling.

    The buffer is reduced to its text (`Doc`), the insert mark (`cursor`)
    and the marks of the regions, which the index entries carry.  A
    `SortedMark` is an index entry, its `Bounds` are the entry's id and
    marks, and Python identity is the entry id.  After an edit the host
    supplies the new text; the handlers move the marks and tags as the
    buffer would. */
module Validation {
  import opened Wrappers
  import opened Seqs
  import opened Regex
  import opened Buffer
  import opened RegionIndex
  import Scheduler
  import V = Validators
  import Signals
  import Edits

  /** The handle of the buffer in the signal registry. */
  const BufferObj: nat := 0

  datatype Engine = Engine(
    doc: Doc,                     // the buffer's text
    cursor: Pos,                  // the insert mark
    index: Index,                 // `_sorted_marks`
    active: seq<nat>,             // `_active_items`, by region id
    dirty: seq<int>,              // `_invalid_lines`
    idleId: nat,                  // `_invalid_idle_id`; 0 when no pass is pending
    queued: set<nat>,             // idle sources the main loop holds for the engine
    validators: seq<V.Validator>, // `_validators`
    host: V.Host,                 // the buffer's modified flag and the handle source
    nextId: nat,                  // id of the next region
    deleteRange: (int, int),      // `_delete_range`
    signals: Signals.Registry,    // the connections of the `Signals` base
    insertHook: bool)             // whether `on_insert_text` is hooked in

  /** The region `bounds` of an index entry. */
  function BoundsOf(x: Entry): V.Bounds {
    V.Bounds(x.id, x.start, x.end)
  }

  // ---------------------------------------------------------------------
  // Invariants

  /** Every entry names an existing validator and an id already handed out. */
  predicate EntriesOk(e: Engine) {
    forall i :: 0 <= i < |e.index| ==> e.index[i].vi < |e.validators| && e.index[i].id < e.nextId
  }

  /** The index is sorted, its keys are the lines its regions start on, and
      no region is in it twice. */
  predicate IndexOk(e: Engine) {
    Sorted(e.index) && KeysTrack(e.index) && NoDup(Ids(e.index)) && EntriesOk(e)
  }

  /** Every active region is in the index, once. */
  predicate ActiveOk(e: Engine) {
    NoDup(e.active) && forall a :: a in e.active ==> a in Ids(e.index)
  }

  /** The main loop holds exactly the pending pass, if there is one. */
  predicate Pending(e: Engine) {
    (e.idleId == 0 ==> e.queued == {}) && (e.idleId != 0 ==> e.queued == {e.idleId})
  }

  predicate ValidatorsOk(e: Engine) {
    forall i :: 0 <= i < |e.validators| ==> V.WellFormed(e.validators[i])
  }

  predicate Inv(e: Engine) {
    IndexOk(e) && ActiveOk(e) && Scheduler.Ascending(e.dirty) && Pending(e) && ValidatorsOk(e)
  }

  /** The validators keep their kind and rule. */
  predicate SameRules(vs: seq<V.Validator>, ws: seq<V.Validator>) {
    |vs| == |ws| && forall i :: 0 <= i < |vs| ==> ws[i].kind == vs[i].kind && ws[i].rule == vs[i].rule
  }

  lemma SameRulesWellFormed(e: Engine, ws: seq<V.Validator>)
    requires ValidatorsOk(e) && SameRules(e.validators, ws)
    ensures ValidatorsOk(e.(validators := ws))
  {
    forall i | 0 <= i < |ws| ensures V.WellFormed(ws[i]) {
      assert V.WellFormed(e.validators[i]);
    }
  }

  // ---------------------------------------------------------------------
  // Lookup and removal by identity

  /** The position of the first entry with id `id`. */
  function IdPos(ix: Index, id: nat): (k: nat)
    requires id in Ids(ix)
    ensures k < |ix| && ix[k].id == id
    ensures forall j :: 0 <= j < k ==> ix[j].id != id
  {
    assert Ids(ix) == [ix[0].id] + Ids(ix[1..]);
    if ix[0].id == id then 0 else 1 + IdPos(ix[1..], id)
  }

  /** The entry with id `id`, if any. */
  function Find(ix: Index, id: nat): (r: Option<Entry>)
    ensures r.Some? <==> id in Ids(ix)
    ensures r.Some? ==> r.value in ix && r.value.id == id
  {
    if id in Ids(ix) then Some(ix[IdPos(ix, id)]) else None
  }

  /** With distinct ids, the entry found is the only one with that id. */
  lemma FindUnique(ix: Index, x: Entry)
    requires NoDup(Ids(ix)) && x in ix
    ensures Find(ix, x.id) == Some(x)
  {
    var i :| 0 <= i < |ix| && ix[i] == x;
    assert Ids(ix)[i] == x.id;
    var k := IdPos(ix, x.id);
    assert Ids(ix)[k] == Ids(ix)[i];
  }

  /** `_sorted_marks.remove(a)` with `compare_direct` set: the entry with
      that id leaves the index; the others keep their order. */
  function RemoveId(ix: Index, id: nat): (r: Index)
    ensures id !in Ids(ix) ==> r == ix
    ensures id in Ids(ix) ==> |r| == |ix| - 1
    ensures id in Ids(ix) ==> forall i :: 0 <= i < |r| ==> r[i] == ix[if i < IdPos(ix, id) then i else i + 1]
    ensures forall x :: x in r ==> x in ix
    ensures forall x :: x in ix && x.id != id ==> x in r
  {
    if id in Ids(ix) then
      var k := IdPos(ix, id);
      var r := ix[..k] + ix[k + 1..];
      assert forall i :: 0 <= i < |r| ==> r[i] == ix[if i < k then i else i + 1];
      assert forall x :: x in ix && x.id != id ==> x in r by {
        forall x | x in ix && x.id != id ensures x in r {
          var j :| 0 <= j < |ix| && ix[j] == x;
          assert r[if j < k then j else j - 1] == x;
        }
      }
      r
    else ix
  }

  /** Removal keeps the index sorted. */
  lemma RemoveIdSorted(ix: Index, id: nat)
    requires Sorted(ix)
    ensures Sorted(RemoveId(ix, id))
  {
    if id in Ids(ix) {
      var k := IdPos(ix, id);
      var r := RemoveId(ix, id);
      forall i, j | 0 <= i < j < |r| ensures r[i].key <= r[j].key {
        assert r[i] == ix[if i < k then i else i + 1] && r[j] == ix[if j < k then j else j + 1];
      }
    }
  }

  /** Every entry of a subsequence-like result comes from the index, so the
      keys still track the lines. */
  lemma KeysTrackSubset(ix: Index, r: Index)
    requires KeysTrack(ix) && forall x :: x in r ==> x in ix
    ensures KeysTrack(r)
  {
    forall i | 0 <= i < |r| ensures r[i].key == r[i].start.line {
      assert r[i] in ix;
    }
  }

  /** Removal keeps the ids distinct. */
  lemma RemoveIdDistinct(ix: Index, id: nat)
    requires NoDup(Ids(ix)) && id in Ids(ix)
    ensures NoDup(Ids(RemoveId(ix, id)))
  {
    var k := IdPos(ix, id);
    var r := RemoveId(ix, id);
    var ids, rids := Ids(ix), Ids(r);
    forall i, j | 0 <= i < j < |r| ensures rids[i] != rids[j] {
      var a, b := if i < k then i else i + 1, if j < k then j else j + 1;
      assert r[i] == ix[a] && r[j] == ix[b] && a < b;
      assert ids[a] != ids[b];
    }
  }

  /** Removal drops the removed id. */
  lemma RemoveIdGone(ix: Index, id: nat)
    requires NoDup(Ids(ix)) && id in Ids(ix)
    ensures id !in Ids(RemoveId(ix, id))
  {
    var k := IdPos(ix, id);
    var r := RemoveId(ix, id);
    var ids, rids := Ids(ix), Ids(r);
    forall i | 0 <= i < |r| ensures rids[i] != id {
      var a := if i < k then i else i + 1;
      assert r[i] == ix[a] && a != k;
      assert ids[a] != ids[k];
    }
  }

  /** Removal keeps the ids distinct and drops the removed one. */
  lemma RemoveIdNoDup(ix: Index, id: nat)
    requires NoDup(Ids(ix))
    ensures NoDup(Ids(RemoveId(ix, id))) && id !in Ids(RemoveId(ix, id))
  {
    if id in Ids(ix) {
      RemoveIdDistinct(ix, id);
      RemoveIdGone(ix, id);
    }
  }

  /** Removal does not change which entry another id finds. */
  lemma RemoveIdFind(ix: Index, id: nat, j: nat)
    requires NoDup(Ids(ix)) && j != id
    ensures Find(RemoveId(ix, id), j) == Find(ix, j)
  {
    RemoveIdNoDup(ix, id);
    var r := RemoveId(ix, id);
    if j in Ids(ix) {
      var x := Find(ix, j).value;
      assert x in r;
      FindUnique(r, x);
    }
  }

  /** The index operations of the engine, on one entry: removal keeps the
      index well formed. */
  lemma RemoveIdKeeps(ix: Index, id: nat)
    requires Sorted(ix) && KeysTrack(ix) && NoDup(Ids(ix))
    ensures Sorted(RemoveId(ix, id)) && KeysTrack(RemoveId(ix, id)) && NoDup(Ids(RemoveId(ix, id)))
    ensures id !in Ids(RemoveId(ix, id))
  {
    RemoveIdSorted(ix, id);
    KeysTrackSubset(ix, RemoveId(ix, id));
    RemoveIdNoDup(ix, id);
  }

  // ---------------------------------------------------------------------
  // Scheduling

  /** `_invalidate(start, end)` for the lines of the two endpoints: every
      line between them becomes dirty, and a pass is queued (with a fresh
      idle handle) only when none is pending. */
  function Invalidate(e: Engine, l1: int, l2: int): (r: Engine)
    ensures forall x :: x in r.dirty <==> x in e.dirty || (if l1 <= l2 then l1 <= x <= l2 else l2 <= x <= l1)
    ensures Scheduler.Ascending(r.dirty) && NoDup(r.dirty)
    ensures r.idleId != 0
    ensures e.idleId != 0 ==> r.idleId == e.idleId && r.queued == e.queued && r.host == e.host
    ensures e.idleId == 0 ==> r.queued == e.queued + {r.idleId} && r.host.modified == e.host.modified
    ensures Pending(e) ==> Pending(r)
    ensures r == e.(dirty := r.dirty, idleId := r.idleId, queued := r.queued, host := r.host)
  {
    var dirty := Scheduler.AddLines(e.dirty, l1, l2);
    if e.idleId == 0 then
      var id := e.host.next + 1;
      e.(dirty := dirty, idleId := id, queued := e.queued + {id}, host := e.host.(next := id + 1))
    else e.(dirty := dirty)
  }

  /** A run of invalidations, as the edits between two passes cause. */
  function InvalidateEach(e: Engine, edits: seq<(int, int)>): Engine
    decreases |edits|
  {
    if |edits| == 0 then e else InvalidateEach(Invalidate(e, edits[0].0, edits[0].1), edits[1..])
  }

  /** However many invalidations happen before the main loop is idle,
      exactly one pass is pending afterwards (the one already pending, if
      any), and every invalidated line is dirty. */
  lemma {:induction false} OnePendingPass(e: Engine, edits: seq<(int, int)>)
    requires Pending(e) && |edits| > 0
    ensures var r := InvalidateEach(e, edits);
            r.idleId != 0 && r.queued == {r.idleId} && (e.idleId != 0 ==> r.idleId == e.idleId)
    ensures var r := InvalidateEach(e, edits);
            forall k, x :: 0 <= k < |edits| && edits[k].0 <= x <= edits[k].1 ==> x in r.dirty
    decreases |edits|
  {
    var e1 := Invalidate(e, edits[0].0, edits[0].1);
    var r := InvalidateEach(e, edits);
    assert r == InvalidateEach(e1, edits[1..]);
    if |edits| > 1 {
      OnePendingPass(e1, edits[1..]);
      forall k, x | 0 <= k < |edits| && edits[k].0 <= x <= edits[k].1 ensures x in r.dirty {
        if k == 0 { DirtyStays(e1, edits[1..], x); } else { assert edits[1..][k - 1] == edits[k]; }
      }
    }
  }

  /** A dirty line stays dirty until a pass runs. */
  lemma {:induction false} DirtyStays(e: Engine, edits: seq<(int, int)>, x: int)
    requires x in e.dirty
    ensures x in InvalidateEach(e, edits).dirty
    decreases |edits|
  {
    if |edits| > 0 { DirtyStays(Invalidate(e, edits[0].0, edits[0].1), edits[1..], x); }
  }

  // ---------------------------------------------------------------------
  // Construction

  /** The last line of the buffer (a buffer always has a line). */
  function LastLine(doc: Doc): nat {
    if |doc| == 0 then 0 else |doc| - 1
  }

  /** The five connections made on the buffer, with handler ids 1 to 5:
      `delete-range` before and after the default handler, `cursor-moved`,
      `save` and `saved`. */
  function InitialSignals(): (reg: Signals.Registry)
    ensures reg.Keys == {BufferObj}
    ensures reg[BufferObj].Keys == {"delete-range", "cursor-moved", "save", "saved"}
    ensures reg[BufferObj]["delete-range"] == [1, 2]
  {
    map[BufferObj := map["delete-range" := [1, 2], "cursor-moved" := [3], "save" := [4], "saved" := [5]]]
  }

  /** `Validation(view)`: connect the five buffer signals and the insert
      hook, create the Meta and LaTeX validators, and invalidate the whole
      buffer. */
  function New(doc: Doc, cursor: Pos): (r: Engine)
    ensures Inv(r)
    ensures r.index == [] && r.active == [] && r.nextId == 0
    ensures r.validators == [V.MetaValidator, V.LatexValidator]
    ensures forall x :: x in r.dirty <==> 0 <= x <= LastLine(doc)
    ensures r.idleId != 0 && r.queued == {r.idleId}
    ensures BufferObj in r.signals && r.insertHook
    ensures r.signals[BufferObj].Keys == {"delete-range", "cursor-moved", "save", "saved"}
    ensures r.signals[BufferObj]["delete-range"] == [1, 2]
  {
    var reg := InitialSignals();
    V.BuiltinsWellFormed();
    var e := Engine(doc, cursor, [], [], [], 0, {}, [V.MetaValidator, V.LatexValidator],
                    V.Host(false, 6), 0, (0, 0), reg, true);
    Invalidate(e, 0, LastLine(doc))
  }

  // ---------------------------------------------------------------------
  // Index bookkeeping

  lemma InIds(ix: Index, y: Entry)
    requires y in ix
    ensures y.id in Ids(ix)
  {
    var i :| 0 <= i < |ix| && ix[i] == y;
    assert Ids(ix)[i] == y.id;
  }

  /** Where each entry sits after `Insort`. */
  lemma InsortAt(ix: Index, x: Entry)
    ensures var r, k := Insort(ix, x), BisectRight(ix, x.key);
            forall i :: 0 <= i < |r| ==> r[i] == (if i < k then ix[i] else if i == k then x else ix[i - 1])
  {
    var r, k := Insort(ix, x), BisectRight(ix, x.key);
    forall i | 0 <= i < |r| ensures r[i] == (if i < k then ix[i] else if i == k then x else ix[i - 1]) {
      if i < k { assert r[..k][i] == r[i]; }
      else if i > k { assert r[k + 1..][i - k - 1] == r[i]; }
    }
  }

  /** `Insort` adds exactly its entry. */
  lemma InsortMembers(ix: Index, x: Entry)
    ensures forall y :: y in Insort(ix, x) <==> y in ix || y == x
  {
    var r := Insort(ix, x);
    assert forall y :: y in r <==> y in multiset(r);
    assert forall y :: y in ix <==> y in multiset(ix);
  }

  /** An entry with a fresh id keeps the ids distinct. */
  lemma InsortIds(ix: Index, x: Entry)
    requires NoDup(Ids(ix)) && x.id !in Ids(ix)
    ensures NoDup(Ids(Insort(ix, x)))
  {
    var k := BisectRight(ix, x.key);
    InsortIdsAt(ix, x);
    NoDupInsert(Ids(ix), k, x.id);
  }

  /** The ids after `Insort`: the new id goes in at the insertion point. */
  lemma InsortIdsAt(ix: Index, x: Entry)
    ensures var k, ids := BisectRight(ix, x.key), Ids(ix);
            Ids(Insort(ix, x)) == ids[..k] + [x.id] + ids[k..]
  {
    var k := BisectRight(ix, x.key);
    InsortSplice(ix, x);
    IdsSplice(ix, k, x);
  }

  /** `Insort` as a splice. */
  lemma InsortSplice(ix: Index, x: Entry)
    ensures var k := BisectRight(ix, x.key); Insort(ix, x) == ix[..k] + [x] + ix[k..]
  {
  }

  /** The ids of a splice are the splice of the ids. */
  lemma IdsSplice(ix: Index, k: nat, x: Entry)
    requires k <= |ix|
    ensures Ids(ix[..k] + [x] + ix[k..]) == Ids(ix)[..k] + [x.id] + Ids(ix)[k..]
  {
    var a, b := ix[..k], ix[k..];
    IdsAppend(a + [x], b);
    IdsSnoc(a, x);
    IdsHalves(ix, k);
  }

  lemma IdsSnoc(a: Index, x: Entry)
    ensures Ids(a + [x]) == Ids(a) + [x.id]
  {
    IdsAppend(a, [x]);
    assert Ids([x]) == [x.id];
  }

  lemma IdsHalves(ix: Index, k: nat)
    requires k <= |ix|
    ensures Ids(ix[..k]) == Ids(ix)[..k] && Ids(ix[k..]) == Ids(ix)[k..]
  {
    IdsAppend(ix[..k], ix[k..]);
    assert ix[..k] + ix[k..] == ix;
    SplitBack(Ids(ix), Ids(ix[..k]), Ids(ix[k..]));
  }

  /** The ids of a concatenation. */
  lemma {:induction false} IdsAppend(a: Index, b: Index)
    ensures Ids(a + b) == Ids(a) + Ids(b)
  {
    if |a| > 0 {
      IdsAppend(a[1..], b);
      assert (a + b)[1..] == a[1..] + b;
    } else {
      assert a + b == b;
    }
  }

  /** Inserting a region with a fresh id whose key is its line keeps the
      index well formed, and adds exactly that region. */
  lemma InsortKeeps(ix: Index, x: Entry)
    requires Sorted(ix) && KeysTrack(ix) && NoDup(Ids(ix))
    requires x.key == x.start.line && x.id !in Ids(ix)
    ensures Sorted(Insort(ix, x)) && KeysTrack(Insort(ix, x)) && NoDup(Ids(Insort(ix, x)))
    ensures forall y :: y in Insort(ix, x) <==> y in ix || y == x
  {
    InsortSorted(ix, x);
    InsortMembers(ix, x);
    InsortIds(ix, x);
    var r := Insort(ix, x);
    forall i | 0 <= i < |r| ensures r[i].key == r[i].start.line {
      assert r[i] in r;
    }
  }

  /** Adding one region with the next id, and possibly activating it, keeps
      the engine invariant. */
  lemma AddEntryKeeps(e: Engine, r: Engine, x: Entry)
    requires Inv(e)
    requires x.id == e.nextId && x.vi < |e.validators| && x.key == x.start.line
    requires r.index == Insort(e.index, x) && r.nextId == e.nextId + 1
    requires r.active == e.active || r.active == e.active + [x.id]
    requires SameRules(e.validators, r.validators)
    requires r.dirty == e.dirty && r.idleId == e.idleId && r.queued == e.queued
    ensures Inv(r)
  {
    assert x.id !in Ids(e.index);
    InsortKeeps(e.index, x);
    SameRulesWellFormed(e, r.validators);
    AddEntryActive(e, r, x);
    forall i | 0 <= i < |r.index| ensures r.index[i].vi < |r.validators| && r.index[i].id < r.nextId {
      assert r.index[i] in r.index;
      if r.index[i] != x {
        var j :| 0 <= j < |e.index| && e.index[j] == r.index[i];
      }
    }
  }

  lemma AddEntryActive(e: Engine, r: Engine, x: Entry)
    requires ActiveOk(e) && x.id !in Ids(e.index)
    requires r.active == e.active || r.active == e.active + [x.id]
    requires forall y :: y in r.index <==> y in e.index || y == x
    ensures ActiveOk(r)
  {
    forall a | a in r.active ensures a in Ids(r.index) {
      if a == x.id { InIds(r.index, x); }
      else {
        var y := Find(e.index, a).value;
        InIds(r.index, y);
      }
    }
    if r.active != e.active {
      assert x.id !in e.active;
      forall i, j | 0 <= i < j < |r.active| ensures r.active[i] != r.active[j] {
        if j == |e.active| { assert r.active[i] in e.active; }
        else { assert r.active[i] == e.active[i] && r.active[j] == e.active[j]; }
      }
    }
  }

  /** Whether validator `vi` has a region mark at `p` (the marks of a region
      carry their validator until the region stops). */
  predicate HasValidatorAt(ix: Index, vi: nat, p: Pos) {
    exists i :: 0 <= i < |ix| && ix[i].vi == vi && (ix[i].start == p || ix[i].end == p)
  }

  /** Whether region `x` still holds text its validator accepts
      (`SortedMark.valid`). */
  predicate Valid(e: Engine, x: Entry)
    requires x.vi < |e.validators|
  {
    V.MatchExact(e.validators[x.vi], Slice(e.doc, x.start, x.end))
  }

  /** Validity depends only on the text and the rules. */
  lemma ValidSame(e: Engine, r: Engine, x: Entry)
    requires x.vi < |e.validators| && SameRules(e.validators, r.validators) && r.doc == e.doc
    ensures Valid(r, x) == Valid(e, x)
  {
  }

  /** The matches of a validator depend only on its rule. */
  lemma MatchLineSame(v: V.Validator, w: V.Validator, line: string)
    requires v.rule == w.rule
    ensures V.MatchLine(v, line) == V.MatchLine(w, line)
  {
  }

  // ---------------------------------------------------------------------
  // New regions

  /** `_add_validate(validator, start, match)` for validator `vi`, a match
      on `line`: nothing happens when the validator already has marks at
      both ends of the match; otherwise a new region with the next id is
      inserted into the index under its line, added to and validated by its
      validator, and entered at once if the cursor is inside it.  The new
      region's text is accepted by `match_exact`.  Lines are taken as
      ASCII, so the match's offsets are columns. */
  function AddValidate(e: Engine, vi: nat, line: int, m: Match): (r: Engine)
    requires vi < |e.validators| && V.WellFormed(e.validators[vi]) && e.validators[vi].rule.Some?
    requires m in V.MatchLine(e.validators[vi], LineText(e.doc, line))
    ensures SameRules(e.validators, r.validators)
    ensures r == e.(index := r.index, active := r.active, validators := r.validators, host := r.host, nextId := r.nextId)
    ensures var s, t := Pos(line, m.start), Pos(line, m.end);
            HasValidatorAt(e.index, vi, s) && HasValidatorAt(e.index, vi, t) ==> r == e
    ensures var s, t := Pos(line, m.start), Pos(line, m.end);
            var x := Entry(e.nextId, line, vi, s, t);
            !(HasValidatorAt(e.index, vi, s) && HasValidatorAt(e.index, vi, t)) ==>
              r.index == Insort(e.index, x) && r.nextId == e.nextId + 1 && Valid(r, x) &&
              r.active == (if InRange(e.cursor, s, t) then e.active + [x.id] else e.active) &&
              x.id in r.validators[vi].active
  {
    var s, t := Pos(line, m.start), Pos(line, m.end);
    if HasValidatorAt(e.index, vi, s) && HasValidatorAt(e.index, vi, t) then e
    else AddNew(e, vi, line, m)
  }

  /** The region of a match that is not yet recorded: registered with its
      validator, validated, and entered when the cursor is inside it. */
  function AddNew(e: Engine, vi: nat, line: int, m: Match): (r: Engine)
    requires vi < |e.validators| && V.WellFormed(e.validators[vi]) && e.validators[vi].rule.Some?
    requires m in V.MatchLine(e.validators[vi], LineText(e.doc, line))
    ensures SameRules(e.validators, r.validators)
    ensures r == e.(index := r.index, active := r.active, validators := r.validators, host := r.host, nextId := r.nextId)
    ensures var s, t := Pos(line, m.start), Pos(line, m.end);
            var x := Entry(e.nextId, line, vi, s, t);
            r.index == Insort(e.index, x) && r.nextId == e.nextId + 1 && Valid(r, x) &&
            r.active == (if InRange(e.cursor, s, t) then e.active + [x.id] else e.active) &&
            x.id in r.validators[vi].active
  {
    var s, t := Pos(line, m.start), Pos(line, m.end);
    var x := Entry(e.nextId, line, vi, s, t);
    var e1 := Register(e, vi, line, m);
    if InRange(e.cursor, s, t) then
      var r := EnterRegion(e1, x);
      ValidSame(e1, r, x);
      SameRulesTrans(e.validators, e1.validators, r.validators);
      r
    else e1
  }

  /** Entering region `x` at once: its id joins the active list and its
      validator's `enter` runs. */
  function EnterRegion(e: Engine, x: Entry): (r: Engine)
    requires x.vi < |e.validators|
    ensures r == e.(active := e.active + [x.id], validators := r.validators, host := r.host)
    ensures SameRules(e.validators, r.validators)
    ensures r.validators[x.vi].active == e.validators[x.vi].active
  {
    var (v, h) := V.Enter(e.validators[x.vi], BoundsOf(x), e.doc, e.host);
    e.(active := e.active + [x.id], validators := e.validators[x.vi := v], host := h)
  }

  /** The new region recorded in the index and in its validator, which
      validates it. */
  function Register(e: Engine, vi: nat, line: int, m: Match): (r: Engine)
    requires vi < |e.validators| && V.WellFormed(e.validators[vi]) && e.validators[vi].rule.Some?
    requires m in V.MatchLine(e.validators[vi], LineText(e.doc, line))
    ensures SameRules(e.validators, r.validators) && |r.validators| == |e.validators|
    ensures r == e.(index := r.index, validators := r.validators, host := r.host, nextId := r.nextId)
    ensures var x := Entry(e.nextId, line, vi, Pos(line, m.start), Pos(line, m.end));
            r.index == Insort(e.index, x) && r.nextId == e.nextId + 1 && Valid(r, x) &&
            x.id in r.validators[vi].active
  {
    var v := e.validators[vi];
    var s, t := Pos(line, m.start), Pos(line, m.end);
    var text := LineText(e.doc, line);
    var x := Entry(e.nextId, line, vi, s, t);
    V.MatchedTextIsExact(v, text, m);
    SliceOneLine(e.doc, line, m.start, m.end);
    MatchAtHasClosedGroups(v.rule.value, text, m.start);
    var v1 := V.Add(v, x.id);
    var (v2, h2) := V.Validate(v1, BoundsOf(x), m, e.doc, e.host);
    var e1 := e.(index := Insort(e.index, x), nextId := e.nextId + 1, validators := e.validators[vi := v2], host := h2);
    assert Valid(e1, x);
    e1
  }

  /** `_add_validate` keeps the engine invariant; it loses no region, and a
      region it adds is valid and starts on the match's line. */
  lemma AddValidateKeepsInv(e: Engine, vi: nat, line: int, m: Match)
    requires Inv(e)
    requires vi < |e.validators| && e.validators[vi].rule.Some?
    requires m in V.MatchLine(e.validators[vi], LineText(e.doc, line))
    ensures Grows(e, AddValidate(e, vi, line, m), {line})
  {
    var r := AddValidate(e, vi, line, m);
    if r != e {
      var x := Entry(e.nextId, line, vi, Pos(line, m.start), Pos(line, m.end));
      AddEntryKeeps(e, r, x);
      InsortMembers(e.index, x);
    }
  }

  /** The inner loop of the pass for one validator and one line: every
      match is offered to `_add_validate`. */
  function AddMatches(e: Engine, vi: nat, line: int, ms: seq<Match>): (r: Engine)
    requires vi < |e.validators| && V.WellFormed(e.validators[vi]) && e.validators[vi].rule.Some?
    requires forall m :: m in ms ==> m in V.MatchLine(e.validators[vi], LineText(e.doc, line))
    ensures SameRules(e.validators, r.validators)
    ensures r == e.(index := r.index, active := r.active, validators := r.validators, host := r.host, nextId := r.nextId)
    decreases |ms|
  {
    if |ms| == 0 then e
    else
      var e1 := AddValidate(e, vi, line, ms[0]);
      assert e1.validators[vi].rule == e.validators[vi].rule && e1.validators[vi].kind == e.validators[vi].kind;
      MatchLineSame(e.validators[vi], e1.validators[vi], LineText(e.doc, line));
      var r := AddMatches(e1, vi, line, ms[1..]);
      SameRulesTrans(e.validators, e1.validators, r.validators);
      r
  }

  /** What the adding loops promise: the invariant holds, no region is
      lost, and every new region is valid and starts on one of `lines`. */
  ghost predicate Grows(e: Engine, r: Engine, lines: set<int>)
    requires Inv(e)
  {
    Inv(r) && SameRules(e.validators, r.validators) && r.doc == e.doc &&
    (forall y :: y in e.index ==> y in r.index) &&
    (forall y :: y in r.index && y !in e.index ==> y.vi < |e.validators| && y.start.line in lines && Valid(r, y))
  }

  lemma GrowsTrans(e: Engine, e1: Engine, r: Engine, l1: set<int>, l2: set<int>)
    requires Inv(e) && Grows(e, e1, l1) && Grows(e1, r, l2)
    ensures Grows(e, r, l1 + l2)
  {
    SameRulesTrans(e.validators, e1.validators, r.validators);
    forall y | y in r.index && y !in e.index ensures y.vi < |e.validators| && y.start.line in l1 + l2 && Valid(r, y) {
      if y in e1.index { ValidSame(e1, r, y); }
    }
  }

  lemma {:induction false} AddMatchesGrows(e: Engine, vi: nat, line: int, ms: seq<Match>)
    requires Inv(e) && vi < |e.validators| && e.validators[vi].rule.Some?
    requires forall m :: m in ms ==> m in V.MatchLine(e.validators[vi], LineText(e.doc, line))
    ensures Grows(e, AddMatches(e, vi, line, ms), {line})
    decreases |ms|
  {
    if |ms| > 0 {
      var e1 := AddValidate(e, vi, line, ms[0]);
      AddValidateKeepsInv(e, vi, line, ms[0]);
      MatchLineSame(e.validators[vi], e1.validators[vi], LineText(e.doc, line));
      AddMatchesGrows(e1, vi, line, ms[1..]);
      GrowsTrans(e, e1, AddMatches(e1, vi, line, ms[1..]), {line}, {line});
    } else {
      SameRulesWellFormed(e, e.validators);
    }
  }

  /** The loop over the dirty lines for one validator. */
  function AddOnLines(e: Engine, vi: nat, lines: seq<int>): (r: Engine)
    requires vi < |e.validators| && V.WellFormed(e.validators[vi]) && e.validators[vi].rule.Some?
    ensures SameRules(e.validators, r.validators)
    ensures r == e.(index := r.index, active := r.active, validators := r.validators, host := r.host, nextId := r.nextId)
    decreases |lines|
  {
    if |lines| == 0 then e
    else
      var e1 := AddMatches(e, vi, lines[0], V.MatchLine(e.validators[vi], LineText(e.doc, lines[0])));
      assert e1.validators[vi].rule == e.validators[vi].rule && e1.validators[vi].kind == e.validators[vi].kind;
      var r := AddOnLines(e1, vi, lines[1..]);
      SameRulesTrans(e.validators, e1.validators, r.validators);
      r
  }

  lemma {:induction false} AddOnLinesGrows(e: Engine, vi: nat, lines: seq<int>)
    requires Inv(e) && vi < |e.validators| && e.validators[vi].rule.Some?
    ensures Grows(e, AddOnLines(e, vi, lines), set l | l in lines)
    decreases |lines|
  {
    if |lines| > 0 {
      var ms := V.MatchLine(e.validators[vi], LineText(e.doc, lines[0]));
      var e1 := AddMatches(e, vi, lines[0], ms);
      AddMatchesGrows(e, vi, lines[0], ms);
      AddOnLinesGrows(e1, vi, lines[1..]);
      assert AddOnLines(e, vi, lines) == AddOnLines(e1, vi, lines[1..]);
      GrowsStep(e, e1, AddOnLines(e1, vi, lines[1..]), lines);
    } else {
      GrowsRefl(e, AddOnLines(e, vi, lines), set l | l in lines);
    }
  }

  /** `Grows` over the first line and then the rest is `Grows` over all of them. */
  lemma GrowsStep(e: Engine, e1: Engine, r: Engine, lines: seq<int>)
    requires |lines| > 0 && Inv(e) && Grows(e, e1, {lines[0]}) && Grows(e1, r, set l | l in lines[1..])
    ensures Grows(e, r, set l | l in lines)
  {
    GrowsTrans(e, e1, r, {lines[0]}, set l | l in lines[1..]);
    LinesSet(lines);
  }

  lemma LinesSet(lines: seq<int>)
    requires |lines| > 0
    ensures (set l | l in lines) == {lines[0]} + (set l | l in lines[1..])
  {
  }

  /** An engine grows from itself. */
  lemma GrowsRefl(e: Engine, r: Engine, lines: set<int>)
    requires Inv(e) && r == e
    ensures Grows(e, r, lines)
  {
    SameRulesWellFormed(e, e.validators);
  }

  /** The loop over the validators, from validator `vi` on. */
  function AddAll(e: Engine, vi: nat, lines: seq<int>): (r: Engine)
    requires ValidatorsOk(e) && vi <= |e.validators|
    ensures SameRules(e.validators, r.validators)
    ensures r == e.(index := r.index, active := r.active, validators := r.validators, host := r.host, nextId := r.nextId)
    decreases |e.validators| - vi
  {
    if vi == |e.validators| then e
    else
      var e1 := if e.validators[vi].rule.Some? then AddOnLines(e, vi, lines) else e;
      SameRulesWellFormed(e, e1.validators);
      var r := AddAll(e1, vi + 1, lines);
      SameRulesTrans(e.validators, e1.validators, r.validators);
      r
  }

  lemma {:induction false} AddAllGrows(e: Engine, vi: nat, lines: seq<int>)
    requires Inv(e) && vi <= |e.validators|
    ensures Grows(e, AddAll(e, vi, lines), set l | l in lines)
    decreases |e.validators| - vi
  {
    if vi < |e.validators| {
      var e1 := if e.validators[vi].rule.Some? then AddOnLines(e, vi, lines) else e;
      AddOneGrows(e, vi, lines);
      AddAllGrows(e1, vi + 1, lines);
      assert AddAll(e, vi, lines) == AddAll(e1, vi + 1, lines);
      GrowsTwice(e, e1, AddAll(e1, vi + 1, lines), set l | l in lines);
    } else {
      GrowsRefl(e, AddAll(e, vi, lines), set l | l in lines);
    }
  }

  /** One validator's turn of the loop over the validators. */
  lemma AddOneGrows(e: Engine, vi: nat, lines: seq<int>)
    requires Inv(e) && vi < |e.validators|
    ensures Grows(e, if e.validators[vi].rule.Some? then AddOnLines(e, vi, lines) else e, set l | l in lines)
  {
    if e.validators[vi].rule.Some? {
      AddOnLinesGrows(e, vi, lines);
    } else {
      GrowsRefl(e, e, set l | l in lines);
    }
  }

  /** Growing twice over the same lines is growing over them. */
  lemma GrowsTwice(e: Engine, e1: Engine, r: Engine, lines: set<int>)
    requires Inv(e) && Grows(e, e1, lines) && Grows(e1, r, lines)
    ensures Grows(e, r, lines)
  {
    GrowsTrans(e, e1, r, lines, lines);
    assert lines + lines == lines;
  }

  /** Validator `vi` has marks at both ends of match `m` on `line`, so
      `_add_validate` leaves the match alone. */
  predicate Covered(ix: Index, vi: nat, line: int, m: Match) {
    HasValidatorAt(ix, vi, Pos(line, m.start)) && HasValidatorAt(ix, vi, Pos(line, m.end))
  }

  lemma CoveredStays(ix: Index, ix2: Index, vi: nat, line: int, m: Match)
    requires Covered(ix, vi, line, m) && forall y :: y in ix ==> y in ix2
    ensures Covered(ix2, vi, line, m)
  {
    var i :| 0 <= i < |ix| && ix[i].vi == vi && (ix[i].start == Pos(line, m.start) || ix[i].end == Pos(line, m.start));
    var j :| 0 <= j < |ix| && ix[j].vi == vi && (ix[j].start == Pos(line, m.end) || ix[j].end == Pos(line, m.end));
    assert ix[i] in ix2 && ix[j] in ix2;
  }

  /** After `_add_validate` the match is covered. */
  lemma AddValidateCovers(e: Engine, vi: nat, line: int, m: Match)
    requires vi < |e.validators| && V.WellFormed(e.validators[vi]) && e.validators[vi].rule.Some?
    requires m in V.MatchLine(e.validators[vi], LineText(e.doc, line))
    ensures Covered(AddValidate(e, vi, line, m).index, vi, line, m)
  {
    var r := AddValidate(e, vi, line, m);
    var x := Entry(e.nextId, line, vi, Pos(line, m.start), Pos(line, m.end));
    if r.index != e.index {
      InsortMembers(e.index, x);
      var k :| 0 <= k < |r.index| && r.index[k] == x;
    }
  }

  lemma {:induction false} AddMatchesCovers(e: Engine, vi: nat, line: int, ms: seq<Match>)
    requires Inv(e) && vi < |e.validators| && e.validators[vi].rule.Some?
    requires forall m :: m in ms ==> m in V.MatchLine(e.validators[vi], LineText(e.doc, line))
    ensures forall m :: m in ms ==> Covered(AddMatches(e, vi, line, ms).index, vi, line, m)
    decreases |ms|
  {
    if |ms| > 0 {
      var e1 := AddValidate(e, vi, line, ms[0]);
      AddValidateCovers(e, vi, line, ms[0]);
      AddValidateKeepsInv(e, vi, line, ms[0]);
      MatchLineSame(e.validators[vi], e1.validators[vi], LineText(e.doc, line));
      AddMatchesCovers(e1, vi, line, ms[1..]);
      AddMatchesGrows(e1, vi, line, ms[1..]);
      var r := AddMatches(e1, vi, line, ms[1..]);
      CoveredStays(e1.index, r.index, vi, line, ms[0]);
      assert forall m :: m in ms ==> m == ms[0] || m in ms[1..];
    }
  }

  lemma {:induction false} AddOnLinesCovers(e: Engine, vi: nat, lines: seq<int>)
    requires Inv(e) && vi < |e.validators| && e.validators[vi].rule.Some?
    ensures forall l, m :: l in lines && m in V.MatchLine(e.validators[vi], LineText(e.doc, l)) ==>
              Covered(AddOnLines(e, vi, lines).index, vi, l, m)
    decreases |lines|
  {
    if |lines| > 0 {
      var ms := V.MatchLine(e.validators[vi], LineText(e.doc, lines[0]));
      var e1 := AddMatches(e, vi, lines[0], ms);
      AddMatchesCovers(e, vi, lines[0], ms);
      AddMatchesGrows(e, vi, lines[0], ms);
      AddOnLinesCovers(e1, vi, lines[1..]);
      AddOnLinesGrows(e1, vi, lines[1..]);
      var r := AddOnLines(e1, vi, lines[1..]);
      forall l, m | l in lines && m in V.MatchLine(e.validators[vi], LineText(e.doc, l)) ensures Covered(r.index, vi, l, m) {
        MatchLineSame(e.validators[vi], e1.validators[vi], LineText(e.doc, l));
        if l == lines[0] { CoveredStays(e1.index, r.index, vi, l, m); } else { assert l in lines[1..]; }
      }
    }
  }

  lemma {:induction false} AddAllCovers(e: Engine, vi: nat, lines: seq<int>)
    requires Inv(e) && vi <= |e.validators|
    ensures forall w, l, m :: vi <= w < |e.validators| && l in lines && m in V.MatchLine(e.validators[w], LineText(e.doc, l)) ==>
              Covered(AddAll(e, vi, lines).index, w, l, m)
    decreases |e.validators| - vi
  {
    if vi < |e.validators| {
      var e1 := if e.validators[vi].rule.Some? then AddOnLines(e, vi, lines) else e;
      if e.validators[vi].rule.Some? {
        AddOnLinesGrows(e, vi, lines);
        AddOnLinesCovers(e, vi, lines);
      } else {
        SameRulesWellFormed(e, e.validators);
      }
      AddAllCovers(e1, vi + 1, lines);
      AddAllGrows(e1, vi + 1, lines);
      var r := AddAll(e1, vi + 1, lines);
      forall w, l, m | vi <= w < |e.validators| && l in lines && m in V.MatchLine(e.validators[w], LineText(e.doc, l))
        ensures Covered(r.index, w, l, m)
      {
        MatchLineSame(e.validators[w], e1.validators[w], LineText(e.doc, l));
        if w == vi { CoveredStays(e1.index, r.index, w, l, m); }
      }
    }
  }

  // ---------------------------------------------------------------------
  // Stale regions

  /** A region leaves the engine (`_revalidate_idle`, `compare_direct`
      set): out of the active list and the index by identity, then
      stopped, which strips its tags. */
  function RemoveRegion(e: Engine, x: Entry): (r: Engine)
    requires x.vi < |e.validators|
    ensures SameRules(e.validators, r.validators)
    ensures r == e.(index := r.index, active := r.active, validators := r.validators, host := r.host)
    ensures r.active == RemoveFirst(e.active, x.id) && r.index == RemoveId(e.index, x.id)
    ensures !e.validators[x.vi].kind.Plain? ==> V.Untagged(r.validators[x.vi], BoundsOf(x), e.doc)
    ensures e.validators[x.vi].kind.Latex? ==> V.Reverted(r.validators[x.vi], BoundsOf(x), e.doc)
  {
    StopRegion(e.(active := RemoveFirst(e.active, x.id), index := RemoveId(e.index, x.id)), x)
  }

  /** Removing a region keeps the engine invariant, takes it out of the
      index and the active list, and leaves every other region in place. */
  lemma RemoveRegionKeepsInv(e: Engine, x: Entry)
    requires Inv(e) && x.vi < |e.validators|
    ensures Inv(RemoveRegion(e, x))
    ensures x.id !in RemoveRegion(e, x).active && x.id !in Ids(RemoveRegion(e, x).index)
    ensures forall y :: y in RemoveRegion(e, x).index <==> y in e.index && y.id != x.id
  {
    var r := RemoveRegion(e, x);
    RemoveIdKeeps(e.index, x.id);
    RemoveFirstNoDup(e.active, x.id);
    SameRulesWellFormed(e, r.validators);
    forall y | y in r.index ensures y.id != x.id { InIds(r.index, y); }
    forall a | a in r.active ensures a in Ids(r.index) {
      var y := Find(e.index, a).value;
      InIds(r.index, y);
    }
    forall i | 0 <= i < |r.index| ensures r.index[i].vi < |r.validators| && r.index[i].id < r.nextId {
      assert r.index[i] in r.index;
      var j :| 0 <= j < |e.index| && e.index[j] == r.index[i];
    }
  }

  /** The check of one dirty line's candidates: each that no longer
      matches exactly is removed. */
  function DropInvalid(e: Engine, cands: seq<Entry>): (r: Engine)
    requires forall c :: c in cands ==> c.vi < |e.validators|
    ensures SameRules(e.validators, r.validators)
    ensures r == e.(index := r.index, active := r.active, validators := r.validators, host := r.host)
    decreases |cands|
  {
    if |cands| == 0 then e
    else
      var c := cands[0];
      var e1 := if !Valid(e, c) then RemoveRegion(e, c) else e;
      var r := DropInvalid(e1, cands[1..]);
      SameRulesTrans(e.validators, e1.validators, r.validators);
      r
  }

  /** What the removal loops promise: the invariant holds and a region
      leaves the index exactly when `gone` (the invalid candidates) holds. */
  ghost predicate Shrinks(e: Engine, r: Engine, gone: set<Entry>)
    requires Inv(e)
  {
    Inv(r) && SameRules(e.validators, r.validators) && r.doc == e.doc &&
    forall y :: y in r.index <==> y in e.index && y !in gone
  }

  /** The invalid candidates among `cands`. */
  ghost function InvalidAmong(e: Engine, cands: seq<Entry>): set<Entry>
    requires forall c :: c in cands ==> c.vi < |e.validators|
  {
    set c | c in cands && !Valid(e, c)
  }

  /** What `EntriesOk` says about one entry. */
  lemma EntryOk(e: Engine, y: Entry)
    requires EntriesOk(e) && y in e.index
    ensures y.vi < |e.validators| && y.id < e.nextId
  {
    var i :| 0 <= i < |e.index| && e.index[i] == y;
  }

  /** Distinct entries of a well-formed index have distinct ids. */
  lemma DistinctIds(ix: Index, c: Entry, d: Entry)
    requires NoDup(Ids(ix)) && c in ix && d in ix && c != d
    ensures c.id != d.id
  {
    FindUnique(ix, c);
    FindUnique(ix, d);
  }

  /** An invalid candidate checked leaves the index; nothing else does. */
  lemma DropRemoves(e: Engine, c: Entry)
    requires Inv(e) && c in e.index && c.vi < |e.validators|
    ensures Shrinks(e, RemoveRegion(e, c), {c})
  {
    RemoveRegionKeepsInv(e, c);
    var r := RemoveRegion(e, c);
    forall y | y in e.index && y != c ensures y.id != c.id { DistinctIds(e.index, c, y); }
    assert forall y :: y in r.index <==> y in e.index && y !in {c};
  }

  /** One candidate checked: it leaves the index when invalid, and nothing
      else changes there. */
  lemma DropOne(e: Engine, c: Entry)
    requires Inv(e) && c in e.index
    ensures c.vi < |e.validators|
    ensures Shrinks(e, if !Valid(e, c) then RemoveRegion(e, c) else e, if !Valid(e, c) then {c} else {})
  {
    EntryOk(e, c);
    if !Valid(e, c) {
      DropRemoves(e, c);
    } else {
      SameRulesWellFormed(e, e.validators);
    }
  }

  lemma ShrinksTrans(e: Engine, e1: Engine, r: Engine, g1: set<Entry>, g2: set<Entry>)
    requires Inv(e) && Shrinks(e, e1, g1) && Shrinks(e1, r, g2)
    ensures Shrinks(e, r, g1 + g2)
  {
    SameRulesTrans(e.validators, e1.validators, r.validators);
  }

  /** The invalid candidates are the first one, if invalid, and the invalid
      ones among the rest, judged after the first check. */
  lemma InvalidAmongSplit(e: Engine, e1: Engine, cands: seq<Entry>)
    requires |cands| > 0 && forall c :: c in cands ==> c.vi < |e.validators|
    requires SameRules(e.validators, e1.validators) && e1.doc == e.doc
    ensures InvalidAmong(e, cands) == (if !Valid(e, cands[0]) then {cands[0]} else {}) + InvalidAmong(e1, cands[1..])
  {
    forall y | y in cands[1..] ensures Valid(e1, y) == Valid(e, y) { ValidSame(e, e1, y); }
    assert forall y :: y in cands <==> y == cands[0] || y in cands[1..];
  }

  lemma {:induction false} DropInvalidShrinks(e: Engine, cands: seq<Entry>)
    requires Inv(e) && NoDup(cands) && forall c :: c in cands ==> c in e.index
    ensures Shrinks(e, DropInvalid(e, cands), InvalidAmong(e, cands))
    decreases |cands|
  {
    if |cands| > 0 {
      var c := cands[0];
      DropOne(e, c);
      var g1 := if !Valid(e, c) then {c} else {};
      var e1 := if !Valid(e, c) then RemoveRegion(e, c) else e;
      RestInIndex(e, e1, cands, g1);
      DropInvalidShrinks(e1, cands[1..]);
      DropInvalidStep(e, e1, cands);
      ShrinksTrans(e, e1, DropInvalid(e1, cands[1..]), g1, InvalidAmong(e1, cands[1..]));
      InvalidAmongSplit(e, e1, cands);
    } else {
      SameRulesWellFormed(e, e.validators);
    }
  }

  /** The candidates after the first are still in the index once the
      first has been checked. */
  lemma RestInIndex(e: Engine, e1: Engine, cands: seq<Entry>, g1: set<Entry>)
    requires Inv(e) && |cands| > 0 && NoDup(cands) && forall c :: c in cands ==> c in e.index
    requires Shrinks(e, e1, g1) && g1 <= {cands[0]}
    ensures NoDup(cands[1..]) && forall d :: d in cands[1..] ==> d in e1.index
  {
    forall d | d in cands[1..] ensures d in e1.index {
      var k :| 1 <= k < |cands| && cands[k] == d;
    }
  }

  /** One step of the check loop. */
  lemma DropInvalidStep(e: Engine, e1: Engine, cands: seq<Entry>)
    requires |cands| > 0 && forall c :: c in cands ==> c.vi < |e.validators|
    requires e1 == if !Valid(e, cands[0]) then RemoveRegion(e, cands[0]) else e
    ensures forall c :: c in cands[1..] ==> c.vi < |e1.validators|
    ensures DropInvalid(e, cands) == DropInvalid(e1, cands[1..])
  {
  }

  /** Whether every region of the index names an existing validator. */
  predicate RegionsOk(ix: Index, n: nat) {
    forall y :: y in ix ==> y.vi < n
  }

  /** The candidates of `_find_possible_active` are index entries. */
  lemma CandidatesInIndex(ix: Index, line: int)
    ensures forall c :: c in FindPossibleActive(ix, line) ==> c in ix
  {
    var cands := FindPossibleActive(ix, line);
    var b := BisectLeft(ix, line);
    forall c | c in cands ensures c in ix {
      var k :| 0 <= k < |cands| && cands[k] == c;
      assert c == ix[b + k];
    }
  }

  /** The candidate check as a whole loses no region outside the index. */
  lemma {:induction false} DropInvalidWithin(e: Engine, cands: seq<Entry>)
    requires forall c :: c in cands ==> c.vi < |e.validators|
    ensures forall y :: y in DropInvalid(e, cands).index ==> y in e.index
    decreases |cands|
  {
    if |cands| > 0 {
      var c := cands[0];
      var e1 := if !Valid(e, c) then RemoveRegion(e, c) else e;
      DropInvalidWithin(e1, cands[1..]);
    }
  }

  /** The first loop of `_revalidate_idle`: for each dirty line, the
      regions `_find_possible_active` offers are checked, and those whose
      text no longer matches are removed. */
  function DropStale(e: Engine, lines: seq<int>): (r: Engine)
    requires RegionsOk(e.index, |e.validators|)
    ensures SameRules(e.validators, r.validators)
    ensures r == e.(index := r.index, active := r.active, validators := r.validators, host := r.host)
    ensures RegionsOk(r.index, |r.validators|)
    decreases |lines|
  {
    if |lines| == 0 then e
    else
      var cands := FindPossibleActive(e.index, lines[0]);
      CandidatesInIndex(e.index, lines[0]);
      var e1 := DropInvalid(e, cands);
      DropInvalidWithin(e, cands);
      var r := DropStale(e1, lines[1..]);
      SameRulesTrans(e.validators, e1.validators, r.validators);
      r
  }

  /** The regions of the index that start on one of `lines` and no longer
      match. */
  ghost function StaleAmong(e: Engine, lines: seq<int>): set<Entry>
    requires EntriesOk(e)
  {
    set y | y in e.index && y.start.line in lines && (EntryOk(e, y); !Valid(e, y))
  }

  lemma ShrinksSame(e: Engine, r: Engine, g1: set<Entry>, g2: set<Entry>)
    requires Inv(e) && Shrinks(e, r, g1)
    requires forall y :: y in e.index ==> (y in g1 <==> y in g2)
    ensures Shrinks(e, r, g2)
  {
  }

  /** The candidates of one dirty line are exactly the regions starting on
      it, without repetition. */
  lemma CandidatesOfLine(e: Engine, line: int)
    requires Inv(e)
    ensures NoDup(FindPossibleActive(e.index, line))
    ensures forall y :: y in FindPossibleActive(e.index, line) <==> y in e.index && y.start.line == line
  {
    FindPossibleActiveComplete(e.index, line);
    FindPossibleActiveDistinct(e.index, line);
  }

  /** The first loop of the pass removes exactly the regions that start on
      a dirty line and no longer match, and keeps the invariant. */
  lemma {:induction false} DropStaleShrinks(e: Engine, lines: seq<int>)
    requires Inv(e)
    ensures RegionsOk(e.index, |e.validators|)
    ensures Shrinks(e, DropStale(e, lines), StaleAmong(e, lines))
    decreases |lines|
  {
    forall y | y in e.index ensures y.vi < |e.validators| { EntryOk(e, y); }
    if |lines| > 0 {
      var l := lines[0];
      var cands := FindPossibleActive(e.index, l);
      CandidatesOfLine(e, l);
      DropInvalidShrinks(e, cands);
      var e1 := DropInvalid(e, cands);
      DropStaleShrinks(e1, lines[1..]);
      var r := DropStale(e1, lines[1..]);
      var g1, g2 := InvalidAmong(e, cands), StaleAmong(e1, lines[1..]);
      ShrinksTrans(e, e1, r, g1, g2);
      forall y | y in e.index ensures y in g1 + g2 <==> y in StaleAmong(e, lines) {
        EntryOk(e, y);
        ValidSame(e, e1, y);
        assert y.start.line in lines <==> y.start.line == l || y.start.line in lines[1..];
      }
      ShrinksSame(e, r, g1 + g2, StaleAmong(e, lines));
    } else {
      SameRulesWellFormed(e, e.validators);
    }
  }

  // ---------------------------------------------------------------------
  // The pass

  /** `_revalidate_idle`: the pending handle is cleared (the handler returns
      `False`, so the main loop drops it), stale regions on the dirty lines
      are removed, every validator's matches on the dirty lines are offered
      to `_add_validate`, and the dirty list is emptied. */
  function Pass(e: Engine): (r: Engine)
    requires Inv(e)
    ensures r.idleId == 0 && r.queued == e.queued - {e.idleId} && r.dirty == []
    ensures SameRules(e.validators, r.validators)
    ensures r.doc == e.doc && r.cursor == e.cursor && r.signals == e.signals && r.insertHook == e.insertHook
  {
    var e0 := e.(idleId := 0, queued := e.queued - {e.idleId});
    DropStaleShrinks(e0, e.dirty);
    var e1 := DropStale(e0, e.dirty);
    SameRulesWellFormed(e0, e1.validators);
    var e2 := AddAll(e1, 0, e.dirty);
    SameRulesTrans(e.validators, e1.validators, e2.validators);
    e2.(dirty := [])
  }

  /** After a pass the invariant holds; a region starting on a line that
      was dirty is in the index afterwards only if its text matches; a
      region elsewhere, or one that still matched, is kept; and every new
      region starts on a line that was dirty. */
  lemma PassSound(e: Engine)
    requires Inv(e)
    ensures Inv(Pass(e))
    ensures forall y :: y in Pass(e).index && y.start.line in e.dirty ==> y.vi < |e.validators| && Valid(Pass(e), y)
    ensures forall y :: y in e.index ==> (y in Pass(e).index <==> (y.vi < |e.validators| && (y.start.line in e.dirty ==> Valid(e, y))))
    ensures forall y :: y in Pass(e).index && y !in e.index ==> y.start.line in e.dirty
  {
    var e0 := e.(idleId := 0, queued := e.queued - {e.idleId});
    assert Inv(e0);
    DropStaleShrinks(e0, e.dirty);
    var e1 := DropStale(e0, e.dirty);
    AddAllGrows(e1, 0, e.dirty);
    var e2 := AddAll(e1, 0, e.dirty);
    PassIs(e, e0, e1, e2);
    PassValid(e, e0, e1, e2, Pass(e));
    PassKept(e, e0, e1, e2, Pass(e));
  }

  /** `Pass` is the stale regions dropped, then the new ones added. */
  lemma PassIs(e: Engine, e0: Engine, e1: Engine, e2: Engine)
    requires Inv(e) && e0 == e.(idleId := 0, queued := e.queued - {e.idleId}) && Inv(e0)
    requires e1 == DropStale(e0, e.dirty) && Inv(e1) && e2 == AddAll(e1, 0, e.dirty)
    ensures Pass(e) == e2.(dirty := [])
  {
  }

  /** Regions on a dirty line after the pass are valid ones, and any new
      region is on a dirty line. */
  lemma PassValid(e: Engine, e0: Engine, e1: Engine, e2: Engine, r: Engine)
    requires Inv(e) && e0 == e.(idleId := 0, queued := e.queued - {e.idleId}) && Inv(e0)
    requires Shrinks(e0, e1, StaleAmong(e0, e.dirty)) && Grows(e1, e2, set l | l in e.dirty)
    requires r == e2.(dirty := [])
    ensures Inv(r)
    ensures forall y :: y in r.index && y.start.line in e.dirty ==> y.vi < |e.validators| && Valid(r, y)
    ensures forall y :: y in r.index && y !in e.index ==> y.start.line in e.dirty
  {
    assert Scheduler.Ascending(r.dirty);
    forall y | y in r.index && y.start.line in e.dirty ensures y.vi < |e.validators| && Valid(r, y) {
      if y in e1.index {
        EntryOk(e0, y);
        ValidSame(e0, e2, y);
      }
    }
  }

  /** An old region survives the pass exactly when its validator exists
      and, on a dirty line, its text still matches. */
  lemma PassKept(e: Engine, e0: Engine, e1: Engine, e2: Engine, r: Engine)
    requires Inv(e) && e0 == e.(idleId := 0, queued := e.queued - {e.idleId}) && Inv(e0)
    requires Shrinks(e0, e1, StaleAmong(e0, e.dirty)) && Grows(e1, e2, set l | l in e.dirty)
    requires r == e2.(dirty := [])
    ensures forall y :: y in e.index ==> (y in r.index <==> (y.vi < |e.validators| && (y.start.line in e.dirty ==> Valid(e, y))))
  {
    forall y | y in e.index ensures y in r.index <==> (y.vi < |e.validators| && (y.start.line in e.dirty ==> Valid(e, y))) {
      EntryOk(e0, y);
      ValidSame(e0, e2, y);
    }
  }

  /** After a pass every match any validator finds on a line that was
      dirty has that validator's marks at both its ends. */
  lemma PassCovers(e: Engine)
    requires Inv(e)
    ensures forall w: nat, l, m :: w < |e.validators| && l in e.dirty && m in V.MatchLine(e.validators[w], LineText(e.doc, l)) ==>
              Covered(Pass(e).index, w, l, m)
  {
    var e0 := e.(idleId := 0, queued := e.queued - {e.idleId});
    assert Inv(e0);
    DropStaleShrinks(e0, e.dirty);
    var e1 := DropStale(e0, e.dirty);
    SameRulesWellFormed(e0, e1.validators);
    var ix := AddAll(e1, 0, e.dirty).index;
    assert Pass(e).index == ix;
    AddAllCovers(e1, 0, e.dirty);
    forall w: nat, l, m | w < |e.validators| && l in e.dirty && m in V.MatchLine(e.validators[w], LineText(e.doc, l))
      ensures Covered(ix, w, l, m)
    {
      MatchLineSame(e.validators[w], e1.validators[w], LineText(e.doc, l));
    }
  }

  /** After a pass, wherever a validator's rule matches on a line that was
      dirty, that validator has marks at both ends of a match `finditer`
      returned, one that starts at that offset or holds it. */
  lemma PassCoversEvery(e: Engine, w: nat, l: int, q: nat)
    requires Inv(e) && w < |e.validators| && l in e.dirty && e.validators[w].rule.Some?
    requires q <= |LineText(e.doc, l)| && MatchAt(e.validators[w].rule.value, LineText(e.doc, l), q).Some?
    ensures exists m :: m in V.MatchLine(e.validators[w], LineText(e.doc, l)) && m.start <= q < Resume(m) &&
                        Covered(Pass(e).index, w, l, m)
  {
    PassCovers(e);
    V.MatchLineComplete(e.validators[w], LineText(e.doc, l), q);
  }

  // ---------------------------------------------------------------------
  // Edits

  /** The validators' state after an insertion, as the buffer leaves it. */
  function ValidatorsOnInsert(vs: seq<V.Validator>, at: Pos, loc: Pos): (ws: seq<V.Validator>)
    ensures SameRules(vs, ws)
    ensures |ws| == |vs| && forall i :: 0 <= i < |vs| ==> ws[i].active == vs[i].active && ws[i].bags == vs[i].bags
  {
    seq(|vs|, i requires 0 <= i < |vs| => V.ShiftOnInsert(vs[i], at, loc))
  }

  /** The validators' state after a deletion, as the buffer leaves it. */
  function ValidatorsOnDelete(vs: seq<V.Validator>, a: Pos, b: Pos): (ws: seq<V.Validator>)
    ensures SameRules(vs, ws)
    ensures |ws| == |vs| && forall i :: 0 <= i < |vs| ==> ws[i].active == vs[i].active && ws[i].bags == vs[i].bags
  {
    seq(|vs|, i requires 0 <= i < |vs| => V.ShiftOnDelete(vs[i], a, b))
  }

  /** What the buffer does when text is inserted at `at`, ending at `loc`,
      before the insert hook runs: the host supplies the new text and
      insert mark, the regions' marks and the tags move, and the index keys
      are left as they were. */
  function BufferInsert(e: Engine, at: Pos, loc: Pos, doc: Doc, cursor: Pos): (r: Engine)
    ensures r.index == Edits.MarksOnInsert(e.index, at, loc)
    ensures SameRules(e.validators, r.validators)
    ensures r == e.(doc := doc, cursor := cursor, index := r.index, validators := r.validators)
  {
    e.(doc := doc, cursor := cursor, index := Edits.MarksOnInsert(e.index, at, loc),
       validators := ValidatorsOnInsert(e.validators, at, loc))
  }

  /** `on_insert_text(start, location)` as written: the lines of the
      insertion become dirty, and when lines were inserted the keys from
      the `bisect_right` point for the next line on are moved down; dirty
      lines below the insertion are not moved. */
  function OnInsertTextAsWritten(e: Engine, at: Pos, loc: Pos): (r: Engine)
    ensures r.dirty == Scheduler.InsertDirtyAsWritten(e.dirty, at.line, loc.line)
    ensures r.index == Edits.InsertKeysAsWritten(e.index, at, loc)
  {
    var e1 := Invalidate(e, at.line, loc.line);
    e1.(index := Edits.InsertKeysAsWritten(e1.index, at, loc))
  }

  /** The corrected `on_insert_text`: dirty lines below the insertion line
      move down with their text, the lines of the insertion become dirty,
      and every region is re-keyed by the line it now starts on, with the
      index kept sorted. */
  function OnInsertText(e: Engine, at: Pos, loc: Pos): (r: Engine)
    requires Le(at, loc)
    ensures r.dirty == Scheduler.InsertDirty(e.dirty, at.line, loc.line)
    ensures r.index == Edits.InsertKeys(e.index, at, loc)
    ensures Pending(e) ==> Pending(r)
    ensures r == e.(dirty := r.dirty, index := r.index, idleId := r.idleId, queued := r.queued, host := r.host)
  {
    var e1 := e.(dirty := Scheduler.ShiftDirtyOnInsert(e.dirty, at.line, loc.line - at.line));
    var e2 := Invalidate(e1, at.line, loc.line);
    assert e2.dirty == Scheduler.AddLines(e1.dirty, at.line, loc.line);
    assert e2.dirty == Scheduler.InsertDirty(e.dirty, at.line, loc.line);
    e2.(index := Edits.InsertKeys(e2.index, at, loc))
  }

  /** An insertion as the engine sees it: the buffer's own update, then the
      insert hook. */
  function InsertText(e: Engine, at: Pos, loc: Pos, doc: Doc, cursor: Pos): Engine
    requires Le(at, loc)
  {
    OnInsertText(BufferInsert(e, at, loc, doc, cursor), at, loc)
  }

  /** The index after an insertion: the old regions, moved with their text
      and keyed by their new start lines, sorted and without repeats. */
  lemma InsertTextIndex(e: Engine, at: Pos, loc: Pos, doc: Doc, cursor: Pos)
    requires Inv(e) && Le(at, loc)
    ensures var r := InsertText(e, at, loc, doc, cursor);
            Sorted(r.index) && KeysTrack(r.index) && NoDup(Ids(r.index)) &&
            forall y :: y in r.index <==> exists z :: z in e.index && y == Edits.Moved(z, at, loc)
  {
    var e1 := BufferInsert(e, at, loc, doc, cursor);
    assert InsertText(e, at, loc, doc, cursor).index == Edits.InsertKeys(e1.index, at, loc);
    Edits.InsertKeysKeeps(e.index, at, loc);
    Edits.InsertKeysMembers(e.index, at, loc);
  }

  /** An insertion keeps the engine invariant, and the index holds exactly
      the old regions, moved with their text and keyed by their new start
      lines. */
  lemma InsertTextKeepsInv(e: Engine, at: Pos, loc: Pos, doc: Doc, cursor: Pos)
    requires Inv(e) && Le(at, loc)
    ensures Inv(InsertText(e, at, loc, doc, cursor))
    ensures var r := InsertText(e, at, loc, doc, cursor);
            forall y :: y in r.index <==> exists z :: z in e.index && y == Edits.Moved(z, at, loc)
  {
    InsertTextIndex(e, at, loc, doc, cursor);
    InsertTextFields(e, at, loc, doc, cursor);
    InsertEntriesOk(e, at, loc, doc, cursor);
    InsertActiveOk(e, at, loc, doc, cursor);
  }

  /** An insertion keeps the active regions, the validators' rules, the
      text and cursor it is given, and leaves a pass pending; the dirty
      lines are the old ones moved with their text plus the lines of the
      insertion, in ascending order. */
  lemma InsertTextFields(e: Engine, at: Pos, loc: Pos, doc: Doc, cursor: Pos)
    requires Inv(e) && Le(at, loc)
    ensures var r := InsertText(e, at, loc, doc, cursor);
            r.active == e.active && r.doc == doc && r.cursor == cursor && r.idleId != 0 &&
            r.nextId == e.nextId && Pending(r) && ValidatorsOk(r) && Scheduler.Ascending(r.dirty)
  {
    var e1 := BufferInsert(e, at, loc, doc, cursor);
    assert ValidatorsOk(e1) && Pending(e1) && e1.active == e.active && e1.doc == doc && e1.cursor == cursor && e1.nextId == e.nextId by {
      SameRulesWellFormed(e, e1.validators);
    }
    InsertHookFields(e1, at, loc);
  }

  /** After an insertion the dirty lines are the old ones moved with their
      text plus the lines of the insertion. */
  lemma InsertTextDirty(e: Engine, at: Pos, loc: Pos, doc: Doc, cursor: Pos)
    requires Le(at, loc)
    ensures var r := InsertText(e, at, loc, doc, cursor);
            forall x :: x in r.dirty <==> (exists y :: y in e.dirty && x == Scheduler.InsertedLine(y, at.line, loc.line - at.line)) || at.line <= x <= loc.line
  {
    assert InsertText(e, at, loc, doc, cursor).dirty == Scheduler.InsertDirty(e.dirty, at.line, loc.line);
  }

  /** The insert hook keeps every field but the dirty lines, the pending
      pass and the index, and leaves a pass pending. */
  lemma InsertHookFields(e: Engine, at: Pos, loc: Pos)
    requires Le(at, loc) && Pending(e)
    ensures var r := OnInsertText(e, at, loc);
            r.active == e.active && r.doc == e.doc && r.cursor == e.cursor && r.idleId != 0 &&
            r.nextId == e.nextId && Pending(r) && r.validators == e.validators && Scheduler.Ascending(r.dirty) &&
            r.dirty == Scheduler.InsertDirty(e.dirty, at.line, loc.line)
  {
    var e1 := e.(dirty := Scheduler.ShiftDirtyOnInsert(e.dirty, at.line, loc.line - at.line));
    assert Invalidate(e1, at.line, loc.line).idleId != 0;
  }

  lemma InsertEntriesOk(e: Engine, at: Pos, loc: Pos, doc: Doc, cursor: Pos)
    requires Inv(e) && Le(at, loc)
    requires var r := InsertText(e, at, loc, doc, cursor);
             |r.validators| == |e.validators| && r.nextId == e.nextId &&
             forall y :: y in r.index <==> exists z :: z in e.index && y == Edits.Moved(z, at, loc)
    ensures EntriesOk(InsertText(e, at, loc, doc, cursor))
  {
    var r := InsertText(e, at, loc, doc, cursor);
    forall i | 0 <= i < |r.index| ensures r.index[i].vi < |r.validators| && r.index[i].id < r.nextId {
      assert r.index[i] in r.index;
      var z :| z in e.index && r.index[i] == Edits.Moved(z, at, loc);
      var j :| 0 <= j < |e.index| && e.index[j] == z;
    }
  }

  lemma InsertActiveOk(e: Engine, at: Pos, loc: Pos, doc: Doc, cursor: Pos)
    requires Inv(e) && Le(at, loc)
    requires var r := InsertText(e, at, loc, doc, cursor);
             r.active == e.active &&
             forall y :: y in r.index <==> exists z :: z in e.index && y == Edits.Moved(z, at, loc)
    ensures ActiveOk(InsertText(e, at, loc, doc, cursor))
  {
    var r := InsertText(e, at, loc, doc, cursor);
    forall a | a in r.active ensures a in Ids(r.index) {
      var z := Find(e.index, a).value;
      InIds(r.index, Edits.Moved(z, at, loc));
    }
  }

  /** `on_delete_range(buf, start, end)`: the lines of the deletion are
      remembered, lower first. */
  function OnDeleteRange(e: Engine, a: Pos, b: Pos): (r: Engine)
    ensures r.deleteRange.0 <= r.deleteRange.1
    ensures (r.deleteRange.0 == a.line && r.deleteRange.1 == b.line) || (r.deleteRange.0 == b.line && r.deleteRange.1 == a.line)
    ensures r == e.(deleteRange := r.deleteRange)
  {
    if a.line <= b.line then e.(deleteRange := (a.line, b.line)) else e.(deleteRange := (b.line, a.line))
  }

  /** What the buffer's default handler does to the text in `[a, b)`: the
      host supplies the new text and insert mark, and the regions' marks
      and the tags move; keys are left as they were. */
  function BufferDelete(e: Engine, a: Pos, b: Pos, doc: Doc, cursor: Pos): (r: Engine)
    ensures r.index == Edits.MarksOnDelete(e.index, a, b)
    ensures SameRules(e.validators, r.validators)
    ensures r == e.(doc := doc, cursor := cursor, index := r.index, validators := r.validators)
  {
    e.(doc := doc, cursor := cursor, index := Edits.MarksOnDelete(e.index, a, b),
       validators := ValidatorsOnDelete(e.validators, a, b))
  }

  /** `on_delete_range_after(buf, start, end)` as written, `at` being where
      both iterators stand after the deletion: when lines were deleted, the
      dirty lines inside the range are dropped and those from the
      `bisect_left` point for its last line on (in list order) are moved
      up, as are the index keys from the `bisect_left` point on; then the
      line of the deletion becomes dirty. */
  function OnDeleteRangeAfterAsWritten(e: Engine, at: Pos): (r: Engine)
    ensures var (d0, d1) := e.deleteRange;
            d1 - d0 > 0 ==> r.index == Edits.DeleteKeysAsWritten(e.index, d0, d1)
  {
    var (d0, d1) := e.deleteRange;
    var e1 := if d1 - d0 > 0 then
      e.(dirty := Scheduler.ShiftDirtyAsWritten(e.dirty, d0, d1), index := Edits.DeleteKeysAsWritten(e.index, d0, d1))
    else e;
    Invalidate(e1, at.line, at.line)
  }

  /** The corrected `on_delete_range_after`: every dirty line outside the
      deleted range and every key moves where its line went, whatever the
      list order; then the line of the deletion becomes dirty. */
  function OnDeleteRangeAfter(e: Engine, at: Pos): (r: Engine)
    ensures var (d0, d1) := e.deleteRange;
            d1 - d0 > 0 ==> r.index == Edits.DeleteKeys(e.index, d0, d1)
    ensures Pending(e) ==> Pending(r)
    ensures e.deleteRange.0 <= e.deleteRange.1 ==>
              forall x :: x in r.dirty <==> (x == at.line ||
                exists y :: y in e.dirty && (y <= e.deleteRange.0 || y >= e.deleteRange.1) && x == Scheduler.ShiftLine(y, e.deleteRange.0, e.deleteRange.1))
    ensures r == e.(dirty := r.dirty, index := r.index, idleId := r.idleId, queued := r.queued, host := r.host)
  {
    var (d0, d1) := e.deleteRange;
    var e1 := if d1 - d0 > 0 then
      e.(dirty := Scheduler.ShiftDirty(e.dirty, d0, d1), index := Edits.DeleteKeys(e.index, d0, d1))
    else e;
    assert d0 == d1 ==> forall y :: y in e.dirty ==> (y <= d0 || y >= d1) && y == Scheduler.ShiftLine(y, d0, d1);
    Invalidate(e1, at.line, at.line)
  }

  /** A deletion of `[a, b)` as the engine sees it: the `delete-range`
      handler, the buffer's default handler, then the handler connected
      after it, both iterators standing at `a`.  The buffer orders the two
      iterators before it emits the signal. */
  function DeleteText(e: Engine, a: Pos, b: Pos, doc: Doc, cursor: Pos): Engine
    requires Le(a, b)
  {
    OnDeleteRangeAfter(BufferDelete(OnDeleteRange(e, a, b), a, b, doc, cursor), a)
  }

  /** A deletion keeps the engine invariant; each index position holds the
      same region with its marks moved and its key set to its new start
      line; the active regions stay active; the dirty lines are the old
      ones outside the deleted range moved with their text, plus the line
      of the deletion. */
  lemma DeleteTextKeepsInv(e: Engine, a: Pos, b: Pos, doc: Doc, cursor: Pos)
    requires Inv(e) && Le(a, b)
    ensures Inv(DeleteText(e, a, b, doc, cursor))
    ensures var r := DeleteText(e, a, b, doc, cursor);
            |r.index| == |e.index| &&
            forall i :: 0 <= i < |e.index| ==> r.index[i] == Edits.MoveEntryOnDelete(e.index[i], a, b).(key := r.index[i].start.line)
    ensures var r := DeleteText(e, a, b, doc, cursor);
            r.active == e.active && r.doc == doc && r.cursor == cursor && r.idleId != 0
    ensures var r := DeleteText(e, a, b, doc, cursor);
            forall x :: x in r.dirty <==> (x == a.line ||
              exists y :: y in e.dirty && (y <= a.line || y >= b.line) && x == Scheduler.ShiftLine(y, a.line, b.line))
  {
    var e0 := OnDeleteRange(e, a, b);
    var e1 := BufferDelete(e0, a, b, doc, cursor);
    var r := DeleteText(e, a, b, doc, cursor);
    assert e0.deleteRange == (a.line, b.line);
    Edits.DeleteKeysKeeps(e.index, a, b);
    assert r.index == Edits.DeleteKeys(e1.index, a.line, b.line);
    SameRulesWellFormed(e, e1.validators);
    assert ValidatorsOk(r) by { assert r.validators == e1.validators; }
    assert Ids(r.index) == Ids(e.index);
  }

  // ---------------------------------------------------------------------
  // Cursor tracking

  /** The calls `cursor_moved_real` makes on the validators, in order. */
  datatype Hook = EnterHook(id: nat) | ExitHook(id: nat)

  /** The region with id `a` contains `p` (an id the index does not hold is
      left alone by the exit loop, so it counts as containing it). */
  predicate Contains(ix: Index, p: Pos, a: nat) {
    match Find(ix, a)
    case None => true
    case Some(x) => InRange(p, x.start, x.end)
  }

  /** `item in self._active_items` without `compare_direct`: some active
      region has line key `k`. */
  predicate KeyActive(ix: Index, act: seq<nat>, k: int) {
    exists a :: a in act && KeyOf(ix, a) == Some(k)
  }

  /** Under distinct ids, `a` leaves the list `RemoveFirst` returns and
      nothing else does. */
  lemma RemoveFirstMembers(s: seq<nat>, x: nat)
    requires NoDup(s)
    ensures forall a :: a in RemoveFirst(s, x) <==> a in s && a != x
  {
    RemoveFirstNoDup(s, x);
    var r := RemoveFirst(s, x);
    forall a | a != x ensures a in r <==> a in s {
      assert multiset(r)[a] == multiset(s)[a];
    }
  }

  /** One step of the exit loop: the region with id `a` leaves the active
      list and its validator's `exit` runs. */
  function ExitOne(e: Engine, a: nat): (r: Engine)
    requires ValidatorsOk(e) && EntriesOk(e) && a in Ids(e.index)
    ensures ValidatorsOk(r) && EntriesOk(r) && SameRules(e.validators, r.validators)
    ensures r == e.(active := RemoveFirst(e.active, a), validators := r.validators, host := r.host)
  {
    var x := Find(e.index, a).value;
    EntryOk(e, x);
    var (v1, h1) := V.Exit(e.validators[x.vi], BoundsOf(x), e.doc, e.host);
    SwapValidator(e, x.vi, v1, h1, RemoveFirst(e.active, a));
    e.(active := RemoveFirst(e.active, a), validators := e.validators[x.vi := v1], host := h1)
  }

  /** A validator replaced by one of the same kind and rule, with any
      active list and host, keeps the validators and entries well formed. */
  lemma SwapValidator(e: Engine, i: nat, v1: V.Validator, h1: V.Host, act: seq<nat>)
    requires ValidatorsOk(e) && EntriesOk(e) && i < |e.validators|
    requires v1.kind == e.validators[i].kind && v1.rule == e.validators[i].rule
    ensures var r := e.(active := act, validators := e.validators[i := v1], host := h1);
            ValidatorsOk(r) && EntriesOk(r) && SameRules(e.validators, r.validators)
  {
    SameRulesWellFormed(e, e.validators[i := v1]);
  }

  /** The first loop of `cursor_moved_real`, over `todo`, a copy of the
      active list: a region that no longer contains the insert mark leaves
      the active list (by identity) and its validator's `exit` runs. */
  function ExitLoop(e: Engine, todo: seq<nat>): (r: (Engine, seq<Hook>))
    requires ValidatorsOk(e) && EntriesOk(e)
    ensures ValidatorsOk(r.0) && EntriesOk(r.0) && SameRules(e.validators, r.0.validators)
    ensures r.0 == e.(active := r.0.active, validators := r.0.validators, host := r.0.host)
    decreases |todo|
  {
    if |todo| == 0 then (e, [])
    else if Contains(e.index, e.cursor, todo[0]) then ExitLoop(e, todo[1..])
    else
      var e1 := ExitOne(e, todo[0]);
      var (r, hs) := ExitLoop(e1, todo[1..]);
      SameRulesTrans(e.validators, e1.validators, r.validators);
      (r, [ExitHook(todo[0])] + hs)
  }

  /** The exit loop over distinct active ids keeps exactly the active
      regions it did not visit or that still contain the insert mark, and
      exits exactly the visited ones that do not. */
  lemma {:induction false} ExitLoopSpec(e: Engine, todo: seq<nat>)
    requires ValidatorsOk(e) && EntriesOk(e)
    requires NoDup(e.active) && NoDup(todo) && forall a :: a in todo ==> a in e.active
    ensures var r := ExitLoop(e, todo);
            NoDup(r.0.active) &&
            (forall a :: a in r.0.active <==> a in e.active && (a !in todo || Contains(e.index, e.cursor, a))) &&
            (forall h :: h in r.1 <==> h.ExitHook? && h.id in todo && !Contains(e.index, e.cursor, h.id))
    decreases |todo|
  {
    if |todo| > 0 {
      var a := todo[0];
      assert forall b :: b in todo[1..] <==> b in todo && b != a;
      if Contains(e.index, e.cursor, a) {
        ExitLoopSpec(e, todo[1..]);
      } else {
        var e1 := ExitOne(e, a);
        RemoveFirstMembers(e.active, a);
        RemoveFirstNoDup(e.active, a);
        ExitLoopSpec(e1, todo[1..]);
      }
    }
  }

  /** Whether region `x` shows its rendered image: a LaTeX region whose
      image character is in the text. */
  predicate ShowsImage(e: Engine, x: Entry)
    requires x.vi < |e.validators|
  {
    e.validators[x.vi].kind.Latex? && BagOf(e, x).anchor
  }

  /** One step of the enter loop: region `x` joins the active list and its
      validator's `enter` runs.  When the region shows its image, `enter`
      deletes the image character, and the buffer's delete-range signal
      runs the engine's own handlers: the deletion spans no line break, so
      `on_delete_range_after` moves no key and only invalidates the
      region's line. */
  function EnterOne(e: Engine, x: Entry): (r: Engine)
    requires ValidatorsOk(e) && x.vi < |e.validators|
    ensures ValidatorsOk(r) && SameRules(e.validators, r.validators)
    ensures r == e.(active := e.active + [x.id], validators := r.validators, host := r.host,
                    dirty := r.dirty, idleId := r.idleId, queued := r.queued)
    ensures forall l :: l in r.dirty <==> l in e.dirty || (l == x.start.line && ShowsImage(e, x))
    ensures ShowsImage(e, x) ==> r.idleId != 0 && Scheduler.Ascending(r.dirty) && (Pending(e) ==> Pending(r))
    ensures !ShowsImage(e, x) ==> r.dirty == e.dirty && r.idleId == e.idleId && r.queued == e.queued
  {
    var (v1, h1) := V.Enter(e.validators[x.vi], BoundsOf(x), e.doc, e.host);
    var e1 := e.(active := e.active + [x.id], validators := e.validators[x.vi := v1], host := h1);
    SameRulesWellFormed(e, e1.validators);
    if ShowsImage(e, x) then Invalidate(e1, x.start.line, x.start.line) else e1
  }

  /** The second loop of `cursor_moved_real`, over the regions that start
      on the insert mark's line: a region containing the mark is appended
      to the active list and entered unless some active region has the
      same line key. */
  function EnterLoop(e: Engine, items: seq<Entry>): (r: (Engine, seq<Hook>))
    requires ValidatorsOk(e) && forall x :: x in items ==> x.vi < |e.validators|
    ensures ValidatorsOk(r.0) && SameRules(e.validators, r.0.validators)
    ensures r.0 == e.(active := r.0.active, validators := r.0.validators, host := r.0.host,
                      dirty := r.0.dirty, idleId := r.0.idleId, queued := r.0.queued)
    decreases |items|
  {
    if |items| == 0 then (e, [])
    else
      var x := items[0];
      assert forall y :: y in items[1..] ==> y in items;
      if InRange(e.cursor, x.start, x.end) && !KeyActive(e.index, e.active, x.key) then
        var e1 := EnterOne(e, x);
        var (r, hs) := EnterLoop(e1, items[1..]);
        SameRulesTrans(e.validators, e1.validators, r.validators);
        (r, [EnterHook(x.id)] + hs)
      else
        EnterLoop(e, items[1..])
  }

  /** Appending to the active list keeps every active key active. */
  lemma KeyActiveMono(ix: Index, act: seq<nat>, more: seq<nat>)
    ensures forall k :: KeyActive(ix, act, k) ==> KeyActive(ix, act + more, k)
  {
    forall k | KeyActive(ix, act, k) ensures KeyActive(ix, act + more, k) {
      var a :| a in act && KeyOf(ix, a) == Some(k);
      assert a in act + more;
    }
  }

  /** The enter loop keeps the active ids distinct and adds exactly the
      regions it enters. */
  lemma {:induction false} EnterLoopActive(e: Engine, items: seq<Entry>)
    requires ValidatorsOk(e) && NoDup(Ids(e.index)) && NoDup(e.active)
    requires forall x :: x in items ==> x in e.index && x.vi < |e.validators|
    ensures var r := EnterLoop(e, items);
            NoDup(r.0.active) && forall a :: a in r.0.active <==> a in e.active || EnterHook(a) in r.1
    decreases |items|
  {
    if |items| > 0 {
      var x := items[0];
      assert forall y :: y in items[1..] ==> y in items;
      if InRange(e.cursor, x.start, x.end) && !KeyActive(e.index, e.active, x.key) {
        EnterFirstActive(e, items);
        EnterLoopActive(EnterOne(e, x), items[1..]);
        EnterLoopActiveCons(e, items);
      } else {
        assert EnterLoop(e, items) == EnterLoop(e, items[1..]);
        EnterLoopActive(e, items[1..]);
      }
    }
  }

  /** Entering a region whose key is not active appends a new id. */
  lemma EnterFirstActive(e: Engine, items: seq<Entry>)
    requires ValidatorsOk(e) && NoDup(Ids(e.index)) && NoDup(e.active)
    requires |items| > 0 && items[0] in e.index && items[0].vi < |e.validators|
    requires !KeyActive(e.index, e.active, items[0].key)
    ensures NoDup(EnterOne(e, items[0]).active)
  {
    var x := items[0];
    FindUnique(e.index, x);
    assert x.id !in e.active;
    NoDupInsert(e.active, |e.active|, x.id);
    assert e.active[..|e.active|] + [x.id] + e.active[|e.active|..] == EnterOne(e, x).active;
  }

  /** The active list after an enter loop whose first step enters, from
      what the rest of the loop does. */
  lemma EnterLoopActiveCons(e: Engine, items: seq<Entry>)
    requires ValidatorsOk(e) && forall x :: x in items ==> x.vi < |e.validators|
    requires |items| > 0 && InRange(e.cursor, items[0].start, items[0].end) && !KeyActive(e.index, e.active, items[0].key)
    requires var e1 := EnterOne(e, items[0]);
             var r1 := EnterLoop(e1, items[1..]);
             NoDup(r1.0.active) && forall a :: a in r1.0.active <==> a in e1.active || EnterHook(a) in r1.1
    ensures var r := EnterLoop(e, items);
            NoDup(r.0.active) && forall a :: a in r.0.active <==> a in e.active || EnterHook(a) in r.1
  {
    var x := items[0];
    var e1 := EnterOne(e, x);
    assert forall y :: y in items[1..] ==> y in items;
    var r1 := EnterLoop(e1, items[1..]);
    assert EnterLoop(e, items) == (r1.0, [EnterHook(x.id)] + r1.1);
    ActiveCons(e.active, x.id, r1.1, r1.0.active);
  }

  /** The membership of the active list, one entered region further out. */
  lemma ActiveCons(act: seq<nat>, id: nat, hs: seq<Hook>, r: seq<nat>)
    requires forall a :: a in r <==> a in act + [id] || EnterHook(a) in hs
    ensures forall a :: a in r <==> a in act || EnterHook(a) in [EnterHook(id)] + hs
  {
    forall a ensures a in r <==> a in act || EnterHook(a) in [EnterHook(id)] + hs {
      assert a in act + [id] <==> a in act || a == id;
      assert EnterHook(a) in [EnterHook(id)] + hs <==> a == id || EnterHook(a) in hs;
    }
  }

  /** Every hook of the enter loop enters a visited region that contains
      the insert mark and whose key no region active before the loop had. */
  lemma {:induction false} EnterLoopHooks(e: Engine, items: seq<Entry>)
    requires ValidatorsOk(e) && forall x :: x in items ==> x.vi < |e.validators|
    ensures var r := EnterLoop(e, items);
            forall h :: h in r.1 ==> (h.EnterHook? &&
              exists x :: x in items && x.id == h.id && InRange(e.cursor, x.start, x.end) && !KeyActive(e.index, e.active, x.key))
    decreases |items|
  {
    if |items| > 0 {
      var x := items[0];
      assert forall y :: y in items[1..] ==> y in items;
      if InRange(e.cursor, x.start, x.end) && !KeyActive(e.index, e.active, x.key) {
        var e1 := EnterOne(e, x);
        EnterLoopHooks(e1, items[1..]);
        KeyActiveMono(e.index, e.active, [x.id]);
      } else {
        EnterLoopHooks(e, items[1..]);
      }
    }
  }

  /** After the enter loop, every key active before is still active, and
      the key of every visited region containing the insert mark is
      active. */
  lemma {:induction false} EnterLoopKeys(e: Engine, items: seq<Entry>)
    requires ValidatorsOk(e) && NoDup(Ids(e.index))
    requires forall x :: x in items ==> x in e.index && x.vi < |e.validators|
    ensures var r := EnterLoop(e, items);
            (forall k :: KeyActive(e.index, e.active, k) ==> KeyActive(e.index, r.0.active, k)) &&
            (forall x :: x in items && InRange(e.cursor, x.start, x.end) ==> KeyActive(e.index, r.0.active, x.key))
    decreases |items|
  {
    if |items| > 0 {
      var x := items[0];
      assert forall y :: y in items[1..] ==> y in items;
      if InRange(e.cursor, x.start, x.end) && !KeyActive(e.index, e.active, x.key) {
        var e1 := EnterOne(e, x);
        EnterLoopKeys(e1, items[1..]);
        KeyActiveMono(e.index, e.active, [x.id]);
        FindUnique(e.index, x);
        assert KeyActive(e1.index, e1.active, x.key) by { assert x.id in e1.active; }
      } else {
        EnterLoopKeys(e, items[1..]);
      }
    }
  }

  /** `cursor_moved_real`: the regions that start on the insert mark's
      line are looked up first; then regions that no longer contain the
      mark are exited, and the looked-up regions that contain it are
      entered.  The result carries the hooks called, in order. */
  function CursorMoved(e: Engine): (r: (Engine, seq<Hook>))
    requires Inv(e)
  {
    var items := FindPossibleActive(e.index, e.cursor.line);
    CandidatesInIndex(e.index, e.cursor.line);
    var (e1, exits) := ExitLoop(e, e.active);
    assert forall x :: x in items ==> x.vi < |e1.validators| by {
      forall x | x in items ensures x.vi < |e1.validators| { EntryOk(e, x); }
    }
    var (e2, enters) := EnterLoop(e1, items);
    (e2, exits + enters)
  }

  /** Once key `k` is active, the enter loop enters no region keyed `k`. */
  lemma {:induction false} NoEnterOnceActive(e: Engine, items: seq<Entry>, k: int)
    requires ValidatorsOk(e) && KeyActive(e.index, e.active, k)
    requires forall x :: x in items ==> x.vi < |e.validators| && x.key == k
    ensures EnterLoop(e, items).1 == []
    decreases |items|
  {
    if |items| > 0 {
      assert forall y :: y in items[1..] ==> y in items;
      NoEnterOnceActive(e, items[1..], k);
    }
  }

  /** The exit loop calls only `exit`. */
  lemma {:induction false} ExitLoopExits(e: Engine, todo: seq<nat>)
    requires ValidatorsOk(e) && EntriesOk(e)
    ensures forall h :: h in ExitLoop(e, todo).1 ==> h.ExitHook?
    decreases |todo|
  {
    if |todo| > 0 {
      if Contains(e.index, e.cursor, todo[0]) {
        ExitLoopExits(e, todo[1..]);
      } else {
        ExitLoopExits(ExitOne(e, todo[0]), todo[1..]);
      }
    }
  }

  /** When every visited region has key `k`, the enter loop enters at most
      one: once it has, key `k` is active. */
  lemma {:induction false} EnterLoopAtMostOne(e: Engine, items: seq<Entry>, k: int)
    requires ValidatorsOk(e) && NoDup(Ids(e.index))
    requires forall x :: x in items ==> x in e.index && x.vi < |e.validators| && x.key == k
    ensures |EnterLoop(e, items).1| <= 1
    decreases |items|
  {
    if |items| > 0 {
      var x := items[0];
      assert forall y :: y in items[1..] ==> y in items;
      if InRange(e.cursor, x.start, x.end) && !KeyActive(e.index, e.active, x.key) {
        var e1 := EnterOne(e, x);
        FindUnique(e.index, x);
        assert KeyActive(e1.index, e1.active, k) by { assert x.id in e1.active; }
        assert forall y :: y in items[1..] ==> y in items;
        NoEnterOnceActive(e1, items[1..], k);
      } else {
        EnterLoopAtMostOne(e, items[1..], k);
      }
    }
  }

  /** An enter loop that enters nothing changes nothing. */
  lemma {:induction false} EnterLoopNone(e: Engine, items: seq<Entry>)
    requires ValidatorsOk(e) && forall x :: x in items ==> x.vi < |e.validators|
    ensures EnterLoop(e, items).1 == [] ==> EnterLoop(e, items).0 == e
    decreases |items|
  {
    if |items| > 0 {
      assert forall y :: y in items[1..] ==> y in items;
      var x := items[0];
      if !(InRange(e.cursor, x.start, x.end) && !KeyActive(e.index, e.active, x.key)) {
        EnterLoopNone(e, items[1..]);
      }
    }
  }

  /** When every visited region has key `k`, the enter loop either enters
      nothing and changes nothing, or it is one step of entering a single
      region. */
  lemma {:induction false} EnterLoopShape(e: Engine, items: seq<Entry>, k: int)
    requires ValidatorsOk(e) && NoDup(Ids(e.index))
    requires forall x :: x in items ==> x in e.index && x.vi < |e.validators| && x.key == k
    ensures var r := EnterLoop(e, items);
            (r.1 == [] && r.0 == e) ||
            exists x :: x in items && r.1 == [EnterHook(x.id)] && r.0 == EnterOne(e, x)
    decreases |items|
  {
    if |items| > 0 {
      var x := items[0];
      if InRange(e.cursor, x.start, x.end) && !KeyActive(e.index, e.active, x.key) {
        EnterLoopFirst(e, items, k);
      } else {
        assert forall y :: y in items[1..] ==> y in items;
        assert EnterLoop(e, items) == EnterLoop(e, items[1..]);
        EnterLoopShape(e, items[1..], k);
      }
    }
  }

  /** When the first visited region is entered, no later one with the same
      key is: the loop is that one step. */
  lemma EnterLoopFirst(e: Engine, items: seq<Entry>, k: int)
    requires ValidatorsOk(e) && NoDup(Ids(e.index))
    requires forall x :: x in items ==> x in e.index && x.vi < |e.validators| && x.key == k
    requires |items| > 0 && InRange(e.cursor, items[0].start, items[0].end) && !KeyActive(e.index, e.active, items[0].key)
    ensures EnterLoop(e, items) == (EnterOne(e, items[0]), [EnterHook(items[0].id)])
  {
    var x := items[0];
    assert forall y :: y in items[1..] ==> y in items;
    var e1 := EnterOne(e, x);
    FindUnique(e.index, x);
    assert KeyActive(e1.index, e1.active, k) by { assert x.id in e1.active; }
    NoEnterOnceActive(e1, items[1..], k);
    EnterLoopNone(e1, items[1..]);
    var (r1, hs1) := EnterLoop(e1, items[1..]);
    assert hs1 == [] && r1 == e1;
    assert [EnterHook(x.id)] + hs1 == [EnterHook(x.id)];
  }

  /** The exit loop leaves every region's data as it was: `exit` only
      validates again, which tags or starts a render. */
  lemma {:induction false} ExitLoopBags(e: Engine, todo: seq<nat>)
    requires ValidatorsOk(e) && EntriesOk(e)
    ensures forall i :: 0 <= i < |e.validators| ==> ExitLoop(e, todo).0.validators[i].bags == e.validators[i].bags
    decreases |todo|
  {
    if |todo| > 0 {
      if Contains(e.index, e.cursor, todo[0]) {
        ExitLoopBags(e, todo[1..]);
      } else {
        ExitLoopBags(ExitOne(e, todo[0]), todo[1..]);
      }
    }
  }

  /** Whether the hooks `hs` entered a region of `e` that showed its image. */
  predicate ImageEntered(e: Engine, hs: seq<Hook>) {
    exists x :: x in e.index && EnterHook(x.id) in hs && x.vi < |e.validators| && ShowsImage(e, x)
  }

  /** Entering a LaTeX region that shows its image deletes the image
      character, so the engine's delete handlers mark the insert mark's line
      dirty and a pass is pending; otherwise `cursor_moved_real` leaves the
      dirty lines and the pending pass alone. */
  lemma CursorMovedDirty(e: Engine)
    requires Inv(e)
    ensures var (r, hs) := CursorMoved(e);
            forall l :: l in r.dirty <==> l in e.dirty || (l == e.cursor.line && ImageEntered(e, hs))
    ensures var (r, hs) := CursorMoved(e);
            ImageEntered(e, hs) ==> r.idleId != 0
    ensures var (r, hs) := CursorMoved(e);
            !ImageEntered(e, hs) ==> r.dirty == e.dirty && r.idleId == e.idleId && r.queued == e.queued
    ensures var (r, hs) := CursorMoved(e);
            Scheduler.Ascending(r.dirty) && Pending(r)
  {
    var items := FindPossibleActive(e.index, e.cursor.line);
    CandidatesKeyed(e);
    CandidatesOnLine(e.index, e.cursor.line);
    var (e1, exits) := ExitLoop(e, e.active);
    ExitLoopExits(e, e.active);
    ExitLoopBags(e, e.active);
    var (r, enters) := EnterLoop(e1, items);
    assert CursorMoved(e) == (r, exits + enters);
    EnterLoopShape(e1, items, e.cursor.line);
    if enters == [] {
      assert !ImageEntered(e, exits + enters);
    } else {
      var x :| x in items && enters == [EnterHook(x.id)] && r == EnterOne(e1, x);
      EnteredImage(e, e1, x, exits, enters);
    }
  }

  /** The one region entered after the exit loop showed its image when the
      loop began exactly when it does when it is entered. */
  lemma EnteredImage(e: Engine, e1: Engine, x: Entry, exits: seq<Hook>, enters: seq<Hook>)
    requires IndexOk(e) && x in e.index && x.vi < |e.validators|
    requires SameRules(e.validators, e1.validators)
    requires forall i :: 0 <= i < |e.validators| ==> e1.validators[i].bags == e.validators[i].bags
    requires (forall h :: h in exits ==> h.ExitHook?) && enters == [EnterHook(x.id)]
    ensures ImageEntered(e, exits + enters) <==> ShowsImage(e1, x)
  {
    assert ShowsImage(e1, x) == ShowsImage(e, x);
    forall z | z in e.index && EnterHook(z.id) in exits + enters ensures z == x {
      assert EnterHook(z.id) in enters;
      FindUnique(e.index, x);
      FindUnique(e.index, z);
    }
    if ShowsImage(e, x) {
      assert EnterHook(x.id) in exits + enters;
    }
  }

  /** After `cursor_moved_real` the invariant holds, the index and the
      insert mark are as they were, every active region contains the
      mark, and the regions exited are exactly the active ones that no
      longer contained it. */
  lemma CursorMovedKeeps(e: Engine)
    requires Inv(e)
    ensures var (r, hs) := CursorMoved(e);
            Inv(r) && r.index == e.index && r.cursor == e.cursor
    ensures var (r, hs) := CursorMoved(e);
            forall l :: l in r.dirty <==> l in e.dirty || (l == e.cursor.line && ImageEntered(e, hs))
    ensures var (r, hs) := CursorMoved(e);
            forall a :: a in r.active ==> Contains(r.index, r.cursor, a)
    ensures var (r, hs) := CursorMoved(e);
            forall a :: ExitHook(a) in hs <==> a in e.active && !Contains(e.index, e.cursor, a)
  {
    CursorMovedState(e);
    CursorMovedDirty(e);
    CursorMovedExits(e);
  }

  /** The state half of `CursorMovedKeeps`. */
  lemma CursorMovedState(e: Engine)
    requires Inv(e)
    ensures var (r, hs) := CursorMoved(e);
            Inv(r) && r.index == e.index && r.cursor == e.cursor
    ensures var (r, hs) := CursorMoved(e);
            forall a :: a in r.active ==> Contains(r.index, r.cursor, a)
  {
    CursorMovedFrame(e);
    CursorMovedActive(e);
    CursorMovedDirty(e);
    InvSwap(e, CursorMoved(e).0);
  }

  /** `cursor_moved_real` changes only the active list and the validators'
      tags and host. */
  lemma CursorMovedFrame(e: Engine)
    requires Inv(e)
    ensures var r := CursorMoved(e).0;
            r == e.(active := r.active, validators := r.validators, host := r.host,
                    dirty := r.dirty, idleId := r.idleId, queued := r.queued) &&
            ValidatorsOk(r) && SameRules(e.validators, r.validators)
  {
    var items := FindPossibleActive(e.index, e.cursor.line);
    var (e1, exits) := ExitLoop(e, e.active);
    assert CursorMoved(e).0 == EnterLoop(e1, items).0;
    SameRulesTrans(e.validators, e1.validators, CursorMoved(e).0.validators);
  }

  /** After `cursor_moved_real` the active regions are distinct regions
      of the index that contain the insert mark. */
  lemma CursorMovedActive(e: Engine)
    requires Inv(e)
    ensures var r := CursorMoved(e).0;
            NoDup(r.active) && forall a :: a in r.active ==> a in Ids(e.index) && Contains(e.index, e.cursor, a)
  {
    var items := FindPossibleActive(e.index, e.cursor.line);
    CandidatesInIndex(e.index, e.cursor.line);
    var (e1, exits) := ExitLoop(e, e.active);
    ExitLoopSpec(e, e.active);
    forall x | x in items ensures x.vi < |e1.validators| { EntryOk(e, x); }
    var (r, enters) := EnterLoop(e1, items);
    EnterLoopActive(e1, items);
    EnterLoopHooks(e1, items);
    assert CursorMoved(e).0 == r;
    forall a | EnterHook(a) in enters ensures a in Ids(e.index) && Contains(e.index, e.cursor, a) {
      var x :| x in items && x.id == a && InRange(e.cursor, x.start, x.end);
      FindUnique(e.index, x);
      InIds(e.index, x);
    }
  }

  /** Changing only the active list, the validators' tags and the host
      keeps the invariant when the new active list is sound. */
  lemma InvSwap(e: Engine, r: Engine)
    requires Inv(e) && r == e.(active := r.active, validators := r.validators, host := r.host,
                               dirty := r.dirty, idleId := r.idleId, queued := r.queued)
    requires Scheduler.Ascending(r.dirty) && Pending(r)
    requires ValidatorsOk(r) && SameRules(e.validators, r.validators)
    requires NoDup(r.active) && forall a :: a in r.active ==> a in Ids(e.index)
    ensures Inv(r)
  {
  }

  /** The hooks half of `CursorMovedKeeps`: the exit hooks are those of
      the exit loop. */
  lemma CursorMovedExits(e: Engine)
    requires Inv(e)
    ensures var (r, hs) := CursorMoved(e);
            forall a :: ExitHook(a) in hs <==> a in e.active && !Contains(e.index, e.cursor, a)
  {
    var items := FindPossibleActive(e.index, e.cursor.line);
    CandidatesKeyed(e);
    var (e1, exits) := ExitLoop(e, e.active);
    ExitLoopSpec(e, e.active);
    var enters := EnterLoop(e1, items).1;
    EnterLoopEnters(e1, items);
    assert CursorMoved(e).1 == exits + enters;
    ExitsOnly(exits, enters);
  }

  /** The enter loop calls only `enter`. */
  lemma {:induction false} EnterLoopEnters(e: Engine, items: seq<Entry>)
    requires ValidatorsOk(e) && forall x :: x in items ==> x.vi < |e.validators|
    ensures forall h :: h in EnterLoop(e, items).1 ==> h.EnterHook?
    decreases |items|
  {
    if |items| > 0 {
      var x := items[0];
      assert forall y :: y in items[1..] ==> y in items;
      if InRange(e.cursor, x.start, x.end) && !KeyActive(e.index, e.active, x.key) {
        EnterLoopEnters(EnterOne(e, x), items[1..]);
      } else {
        EnterLoopEnters(e, items[1..]);
      }
    }
  }

  /** Enter hooks after the exit hooks add no exit hook. */
  lemma ExitsOnly(exits: seq<Hook>, enters: seq<Hook>)
    requires forall h :: h in enters ==> h.EnterHook?
    ensures forall a :: ExitHook(a) in exits + enters <==> ExitHook(a) in exits
  {
  }

  /** Every region `cursor_moved_real` enters starts on the insert mark's
      line, contains the mark and was not active. */
  lemma CursorMovedEnters(e: Engine)
    requires Inv(e)
    ensures var (r, hs) := CursorMoved(e);
            forall a :: EnterHook(a) in hs ==> (a !in e.active &&
              exists x :: x in e.index && x.id == a && x.start.line == e.cursor.line && InRange(e.cursor, x.start, x.end))
  {
    var items := FindPossibleActive(e.index, e.cursor.line);
    CandidatesKeyed(e);
    CandidatesOnLine(e.index, e.cursor.line);
    var (e1, exits) := ExitLoop(e, e.active);
    ExitLoopSpec(e, e.active);
    var enters := EnterLoop(e1, items).1;
    EnterLoopHooks(e1, items);
    assert CursorMoved(e).1 == exits + enters;
    HooksFresh(e, e1, items, exits, enters);
  }

  /** The regions `cursor_moved_real` looks up start on the insert mark's line. */
  lemma CandidatesOnLine(ix: Index, line: int)
    ensures forall x :: x in FindPossibleActive(ix, line) ==> x.start.line == line
  {
    var r := FindPossibleActive(ix, line);
    forall x | x in r ensures x.start.line == line {
      var k :| 0 <= k < |r| && r[k] == x;
    }
  }

  /** `HooksFresh` for every hook of the two loops. */
  lemma HooksFresh(e: Engine, e1: Engine, items: seq<Entry>, exits: seq<Hook>, enters: seq<Hook>)
    requires NoDup(Ids(e.index)) && e1.index == e.index
    requires forall x :: x in items ==> x in e.index && x.start.line == e.cursor.line
    requires forall a :: a in e1.active <==> a in e.active && (a !in e.active || Contains(e.index, e.cursor, a))
    requires forall h :: h in exits ==> h.ExitHook?
    requires forall h :: h in enters ==> (h.EnterHook? &&
               exists x :: x in items && x.id == h.id && InRange(e1.cursor, x.start, x.end) && !KeyActive(e1.index, e1.active, x.key))
    requires e1.cursor == e.cursor
    ensures forall a :: EnterHook(a) in exits + enters ==> (a !in e.active &&
              exists x :: x in e.index && x.id == a && x.start.line == e.cursor.line && InRange(e.cursor, x.start, x.end))
  {
    forall a | EnterHook(a) in exits + enters
      ensures a !in e.active && exists x :: x in e.index && x.id == a && x.start.line == e.cursor.line && InRange(e.cursor, x.start, x.end)
    {
      assert EnterHook(a) in enters;
      EnterHookFresh(e, e1, items, a);
    }
  }

  /** A region the enter loop entered after the exit loop was not active
      before, and it is a region of the index on the insert mark's line
      that contains the mark. */
  lemma EnterHookFresh(e: Engine, e1: Engine, items: seq<Entry>, a: nat)
    requires NoDup(Ids(e.index)) && e1.index == e.index
    requires forall x :: x in items ==> x in e.index && x.start.line == e.cursor.line
    requires forall a :: a in e1.active <==> a in e.active && (a !in e.active || Contains(e.index, e.cursor, a))
    requires exists x :: x in items && x.id == a && InRange(e.cursor, x.start, x.end) && !KeyActive(e1.index, e1.active, x.key)
    ensures a !in e.active &&
            exists x :: x in e.index && x.id == a && x.start.line == e.cursor.line && InRange(e.cursor, x.start, x.end)
  {
    var x :| x in items && x.id == a && InRange(e.cursor, x.start, x.end) && !KeyActive(e1.index, e1.active, x.key);
    EnteredFresh(e, e1, x);
  }

  /** A region containing the insert mark whose key is not active after
      the exit loop was not active before it. */
  lemma EnteredFresh(e: Engine, e1: Engine, x: Entry)
    requires NoDup(Ids(e.index)) && x in e.index && e1.index == e.index
    requires forall a :: a in e1.active <==> a in e.active && (a !in e.active || Contains(e.index, e.cursor, a))
    requires InRange(e.cursor, x.start, x.end) && !KeyActive(e1.index, e1.active, x.key)
    ensures x.id !in e.active
  {
    FindUnique(e.index, x);
  }

  /** The regions `cursor_moved_real` looks up all have the insert mark's
      line as their key. */
  lemma CandidatesKeyed(e: Engine)
    requires Inv(e)
    ensures forall x :: x in FindPossibleActive(e.index, e.cursor.line) ==>
              x in e.index && x.vi < |e.validators| && x.key == e.cursor.line
  {
    CandidatesInIndex(e.index, e.cursor.line);
    forall x | x in FindPossibleActive(e.index, e.cursor.line) ensures x.vi < |e.validators| && x.key == e.cursor.line {
      EntryOk(e, x);
      var i :| 0 <= i < |e.index| && e.index[i] == x;
    }
  }

  /** `cursor_moved_real` enters at most one region: the line-key test
      refuses every later region of the line once one is active. */
  lemma CursorMovedEntersOne(e: Engine)
    requires Inv(e)
    ensures var (r, hs) := CursorMoved(e);
            forall a, b :: EnterHook(a) in hs && EnterHook(b) in hs ==> a == b
  {
    var items := FindPossibleActive(e.index, e.cursor.line);
    CandidatesKeyed(e);
    var (e1, exits) := ExitLoop(e, e.active);
    var (r, enters) := EnterLoop(e1, items);
    assert CursorMoved(e).1 == exits + enters;
    EnterLoopAtMostOne(e1, items, e.cursor.line);
    ExitLoopExits(e, e.active);
    OneEnter(exits, enters);
  }

  /** Exit hooks followed by at most one hook name at most one region
      entered. */
  lemma OneEnter(exits: seq<Hook>, enters: seq<Hook>)
    requires (forall h :: h in exits ==> h.ExitHook?) && |enters| <= 1
    ensures forall a, b :: EnterHook(a) in exits + enters && EnterHook(b) in exits + enters ==> a == b
  {
    forall a, b | EnterHook(a) in exits + enters && EnterHook(b) in exits + enters ensures a == b {
      assert EnterHook(a) in enters && EnterHook(b) in enters;
      assert enters == [enters[0]];
    }
  }

  /** When some region of the insert mark's line contains the mark, a
      region keyed on that line is active after `cursor_moved_real`. */
  lemma CursorMovedComplete(e: Engine)
    requires Inv(e)
    ensures var (r, hs) := CursorMoved(e);
            (exists x :: x in e.index && x.start.line == e.cursor.line && InRange(e.cursor, x.start, x.end)) ==>
              KeyActive(r.index, r.active, e.cursor.line)
  {
    var line := e.cursor.line;
    var items := FindPossibleActive(e.index, line);
    CandidatesKeyed(e);
    var (e1, exits) := ExitLoop(e, e.active);
    var (r, enters) := EnterLoop(e1, items);
    EnterLoopKeys(e1, items);
    assert CursorMoved(e) == (r, exits + enters);
    if exists x :: x in e.index && x.start.line == line && InRange(e.cursor, x.start, x.end) {
      var x :| x in e.index && x.start.line == line && InRange(e.cursor, x.start, x.end);
      FindPossibleActiveComplete(e.index, line);
      assert x in items;
    }
  }

  // ---------------------------------------------------------------------
  // Shutdown

  /** The key of an active region, read from the index snapshot `ix0`. */
  function KeyOf(ix0: Index, id: nat): Option<int> {
    match Find(ix0, id)
    case Some(x) => Some(x.key)
    case None => None
  }

  /** The keys of the active regions, in order. */
  function ActiveKeys(ix0: Index, act: seq<nat>): (r: seq<int>)
    requires forall a :: a in act ==> a in Ids(ix0)
    ensures |r| == |act|
    ensures forall k :: 0 <= k < |act| ==> KeyOf(ix0, act[k]) == Some(r[k])
  {
    if |act| == 0 then [] else [KeyOf(ix0, act[0]).value] + ActiveKeys(ix0, act[1..])
  }

  /** `a in self._active_items` followed by `remove(a)` without
      `compare_direct`: the first active region whose key equals `key`
      leaves the list, whichever region that is. */
  function RemoveByKey(ix0: Index, act: seq<nat>, key: int): (r: seq<nat>)
    requires forall a :: a in act ==> a in Ids(ix0)
    ensures forall a :: a in r ==> a in act
    ensures ActiveKeys(ix0, r) == RemoveFirst(ActiveKeys(ix0, act), key)
  {
    if |act| == 0 then []
    else if KeyOf(ix0, act[0]) == Some(key) then act[1..]
    else [act[0]] + RemoveByKey(ix0, act[1..], key)
  }

  /** `a.stop()` for the region of entry `x`: its validator removes it
      (reverting its presentation) and forgets it; no other validator
      changes. */
  function StopRegion(e: Engine, x: Entry): (r: Engine)
    requires x.vi < |e.validators|
    ensures SameRules(e.validators, r.validators)
    ensures r == e.(validators := r.validators, host := r.host)
    ensures forall i :: 0 <= i < |e.validators| && i != x.vi ==> r.validators[i] == e.validators[i]
    ensures !e.validators[x.vi].kind.Plain? ==> V.Untagged(r.validators[x.vi], BoundsOf(x), e.doc)
    ensures e.validators[x.vi].kind.Latex? ==> V.Reverted(r.validators[x.vi], BoundsOf(x), e.doc)
    ensures NoDup(e.validators[x.vi].active) ==> NoDup(r.validators[x.vi].active) && x.id !in r.validators[x.vi].active
    ensures r.host.modified == e.host.modified
  {
    var (vs, h) := StopIn(e.validators, x.vi, BoundsOf(x), e.doc, e.host);
    e.(validators := vs, host := h)
  }

  /** `StopRegion` on the validators alone. */
  function StopIn(vs: seq<V.Validator>, i: nat, b: V.Bounds, doc: Doc, h: V.Host): (r: (seq<V.Validator>, V.Host))
    requires i < |vs|
    ensures SameRules(vs, r.0)
    ensures forall j :: 0 <= j < |vs| && j != i ==> r.0[j] == vs[j]
    ensures !vs[i].kind.Plain? ==> V.Untagged(r.0[i], b, doc)
    ensures vs[i].kind.Latex? ==> V.Reverted(r.0[i], b, doc)
    ensures NoDup(vs[i].active) ==> NoDup(r.0[i].active) && b.id !in r.0[i].active
    ensures r.1 == h
  {
    var (v1, h1) := V.Remove(vs[i], b, doc, h);
    (vs[i := v1], h1)
  }

  lemma SameRulesTrans(a: seq<V.Validator>, b: seq<V.Validator>, c: seq<V.Validator>)
    requires SameRules(a, b) && SameRules(b, c)
    ensures SameRules(a, c)
  {
  }

  /** The keys of an index, in order. */
  function Keys(ix: Index): (r: seq<int>)
    ensures |r| == |ix| && forall i :: 0 <= i < |ix| ==> r[i] == ix[i].key
  {
    if |ix| == 0 then [] else [ix[0].key] + Keys(ix[1..])
  }

  /** Removing a region from the index removes its key once. */
  lemma SplitAt(ks: seq<int>, k: nat)
    requires k < |ks|
    ensures ks == ks[..k] + [ks[k]] + ks[k + 1..]
  {
  }

  lemma KeysCut(ix: Index, k: nat)
    requires k < |ix|
    ensures Keys(ix[..k] + ix[k + 1..]) == Keys(ix)[..k] + Keys(ix)[k + 1..]
  {
    var a, b := Keys(ix[..k] + ix[k + 1..]), Keys(ix)[..k] + Keys(ix)[k + 1..];
    assert |a| == |b|;
    forall i | 0 <= i < |a| ensures a[i] == b[i] {
      if i < k { assert (ix[..k] + ix[k + 1..])[i] == ix[i]; }
      else { assert (ix[..k] + ix[k + 1..])[i] == ix[i + 1]; }
    }
  }

  lemma KeysRemoveId(ix: Index, id: nat)
    requires id in Ids(ix)
    ensures multiset(Keys(ix)) == multiset(Keys(RemoveId(ix, id))) + multiset{Find(ix, id).value.key}
  {
    var k := IdPos(ix, id);
    assert RemoveId(ix, id) == ix[..k] + ix[k + 1..];
    KeysCut(ix, k);
    SplitAt(Keys(ix), k);
  }

  /** Distinct active regions of a duplicate-free index have, key by key, at
      most as many entries as the index. */
  lemma {:induction false} ActiveKeysWithin(ix0: Index, ix: Index, act: seq<nat>)
    requires NoDup(Ids(ix)) && NoDup(act)
    requires forall a :: a in act ==> a in Ids(ix) && a in Ids(ix0) && Find(ix, a) == Find(ix0, a)
    ensures multiset(ActiveKeys(ix0, act)) <= multiset(Keys(ix))
    decreases |act|
  {
    if |act| > 0 {
      var a := act[0];
      var ix' := RemoveId(ix, a);
      forall b | b in act[1..]
        ensures b in Ids(ix') && b in Ids(ix0) && Find(ix', b) == Find(ix0, b)
      {
        RemoveIdFind(ix, a, b);
      }
      assert NoDup(act[1..]) by {
        forall i, j | 0 <= i < j < |act[1..]| ensures act[1..][i] != act[1..][j] { assert act[i + 1] != act[j + 1]; }
      }
      RemoveIdNoDup(ix, a);
      ActiveKeysWithin(ix0, ix', act[1..]);
      KeysRemoveId(ix, a);
      assert ActiveKeys(ix0, act) == [KeyOf(ix0, a).value] + ActiveKeys(ix0, act[1..]);
    }
  }

  /** The loop of `_invalidate_all` over a copy of the index: each region
      leaves the active list (by key) and the index (by key, which finds the
      region itself at the head), and its validator reverts it. */
  function DropAll(e: Engine, ix0: Index, todo: seq<Entry>): (r: Engine)
    requires e.index == todo
    requires forall a :: a in e.active ==> a in Ids(ix0)
    requires forall x :: x in todo ==> x.vi < |e.validators|
    ensures r.index == []
    ensures SameRules(e.validators, r.validators)
    ensures r == e.(index := [], active := r.active, validators := r.validators, host := r.host)
    decreases |todo|
  {
    if |todo| == 0 then e
    else
      var a := todo[0];
      var e1 := StopRegion(e.(active := RemoveByKey(ix0, e.active, a.key), index := todo[1..]), a);
      var r := DropAll(e1, ix0, todo[1..]);
      SameRulesTrans(e.validators, e1.validators, r.validators);
      r
  }

  /** The shutdown loop empties the active list when, key by key, the
      active regions are no more than the regions still to drop. */
  lemma {:induction false} DropAllEmptiesActive(e: Engine, ix0: Index, todo: seq<Entry>)
    requires e.index == todo
    requires forall a :: a in e.active ==> a in Ids(ix0)
    requires forall x :: x in todo ==> x.vi < |e.validators|
    requires multiset(ActiveKeys(ix0, e.active)) <= multiset(Keys(todo))
    ensures DropAll(e, ix0, todo).active == []
    decreases |todo|
  {
    if |todo| > 0 {
      var a := todo[0];
      var e1 := StopRegion(e.(active := RemoveByKey(ix0, e.active, a.key), index := todo[1..]), a);
      DropStep(ix0, e.active, todo);
      DropAllEmptiesActive(e1, ix0, todo[1..]);
    }
  }

  /** One step of the shutdown loop keeps the active keys within the keys
      still to be dropped. */
  lemma DropStep(ix0: Index, act: seq<nat>, todo: seq<Entry>)
    requires |todo| > 0 && forall a :: a in act ==> a in Ids(ix0)
    ensures multiset(ActiveKeys(ix0, act)) <= multiset(Keys(todo)) ==>
            multiset(ActiveKeys(ix0, RemoveByKey(ix0, act, todo[0].key))) <= multiset(Keys(todo[1..]))
  {
    assert Keys(todo) == [todo[0].key] + Keys(todo[1..]);
    assert multiset(Keys(todo)) == multiset{todo[0].key} + multiset(Keys(todo[1..]));
  }

  /** `_invalidate_all`: every region leaves the index and the active list
      and is reverted by its validator. */
  function InvalidateAll(e: Engine): (r: Engine)
    requires EntriesOk(e) && ActiveOk(e) && NoDup(Ids(e.index))
    ensures r.index == [] && r.active == []
    ensures SameRules(e.validators, r.validators)
    ensures r == e.(index := [], active := [], validators := r.validators, host := r.host)
  {
    ActiveKeysWithin(e.index, e.index, e.active);
    DropAllEmptiesActive(e, e.index, e.index);
    DropAll(e, e.index, e.index)
  }

  /** `stop()`: cancel the pending pass, disconnect every buffer signal and
      the insert hook, and invalidate all regions. */
  function Stop(e: Engine): (r: Engine)
    requires Inv(e)
    ensures r.idleId == 0 && r.queued == {}
    ensures BufferObj !in r.signals && !r.insertHook
    ensures forall o :: o in e.signals && o != BufferObj ==> o in r.signals && r.signals[o] == e.signals[o]
    ensures r.index == [] && r.active == []
    ensures Inv(r)
  {
    var e1 := if e.idleId != 0 then e.(queued := e.queued - {e.idleId}, idleId := 0) else e;
    var e2 := e1.(signals := Signals.DisconnectSignals(e1.signals, BufferObj).1, insertHook := false);
    var r := InvalidateAll(e2);
    SameRulesWellFormed(e2, r.validators);
    r
  }

  // ---------------------------------------------------------------------
  // Saving

  /** What `store_for_save` does to a region's data, by validator kind. */
  function Stored(k: V.Kind, b: V.Bag): V.Bag {
    if k.Latex? && b.anchor then b.(anchor := false, restore := true) else b
  }

  /** What `restore_after_save` does to a region's data, by validator kind. */
  function Restored(k: V.Kind, b: V.Bag): V.Bag {
    if k.Latex? && b.restore then b.(anchor := true, restore := false) else b
  }

  /** The bag of region `x` in engine `e`. */
  function BagOf(e: Engine, x: Entry): V.Bag
    requires x.vi < |e.validators|
  {
    V.GetBag(e.validators[x.vi], x.id)
  }

  /** One step of the store loop: region `x` is stored for saving.  When
      it shows its image, `_remove_pixbuf` deletes the image character, and
      the engine's delete handlers invalidate the region's line, as in
      `EnterOne`. */
  function StoreOne(e: Engine, x: Entry): (r: Engine)
    requires x.vi < |e.validators|
    ensures SameRules(e.validators, r.validators)
    ensures r == e.(validators := r.validators, host := r.host, dirty := r.dirty, idleId := r.idleId, queued := r.queued)
    ensures forall l :: l in r.dirty <==> l in e.dirty || (l == x.start.line && ShowsImage(e, x))
    ensures ShowsImage(e, x) ==> r.idleId != 0 && Scheduler.Ascending(r.dirty) && (Pending(e) ==> Pending(r))
    ensures !ShowsImage(e, x) ==> r.dirty == e.dirty && r.idleId == e.idleId && r.queued == e.queued
    ensures forall y: Entry :: y.vi < |e.validators| ==>
              BagOf(r, y) == if y.vi == x.vi && y.id == x.id then Stored(e.validators[y.vi].kind, BagOf(e, y)) else BagOf(e, y)
  {
    var (v, h) := V.StoreForSave(e.validators[x.vi], x.id, e.host);
    var e1 := e.(validators := e.validators[x.vi := v], host := h);
    forall y: Entry | y.vi < |e.validators|
      ensures BagOf(e1, y) == if y.vi == x.vi && y.id == x.id then Stored(e.validators[y.vi].kind, BagOf(e, y)) else BagOf(e, y)
    {
      StoreStep(e, x, y);
    }
    if ShowsImage(e, x) then Invalidate(e1, x.start.line, x.start.line) else e1
  }

  /** The store loop over `todo`. */
  function StoreAll(e: Engine, todo: seq<Entry>): (r: Engine)
    requires forall x :: x in todo ==> x.vi < |e.validators|
    ensures SameRules(e.validators, r.validators)
    ensures r == e.(validators := r.validators, host := r.host, dirty := r.dirty, idleId := r.idleId, queued := r.queued)
    decreases |todo|
  {
    if |todo| == 0 then e
    else
      var e1 := StoreOne(e, todo[0]);
      var r := StoreAll(e1, todo[1..]);
      SameRulesTrans(e.validators, e1.validators, r.validators);
      r
  }

  /** One store step changes only the stored region's data. */
  lemma StoreStep(e: Engine, x: Entry, y: Entry)
    requires x.vi < |e.validators| && y.vi < |e.validators|
    ensures var (v, h) := V.StoreForSave(e.validators[x.vi], x.id, e.host);
            var e1 := e.(validators := e.validators[x.vi := v], host := h);
            BagOf(e1, y) == if y.vi == x.vi && y.id == x.id then Stored(e.validators[y.vi].kind, BagOf(e, y)) else BagOf(e, y)
  {
  }

  /** Each region in the loop ends with its data stored once (storing
      twice is storing once). */
  lemma {:induction false} StoreAllBags(e: Engine, todo: seq<Entry>, y: Entry)
    requires forall x :: x in todo ==> x.vi < |e.validators|
    requires y.vi < |e.validators|
    ensures BagOf(StoreAll(e, todo), y) ==
            if exists x :: x in todo && x.vi == y.vi && x.id == y.id then Stored(e.validators[y.vi].kind, BagOf(e, y)) else BagOf(e, y)
    decreases |todo|
  {
    if |todo| > 0 {
      var x := todo[0];
      var e1 := StoreOne(e, x);
      StoreAllBags(e1, todo[1..], y);
      assert forall z :: z in todo <==> z == x || z in todo[1..];
    }
  }

  /** `on_save`: every region's validator stores it for saving, so no image
      of a LaTeX region is left in the text that is written. */
  function OnSave(e: Engine): (r: Engine)
    requires EntriesOk(e)
    ensures r == e.(validators := r.validators, host := r.host, dirty := r.dirty, idleId := r.idleId, queued := r.queued)
    ensures SameRules(e.validators, r.validators)
    ensures forall x :: x in e.index ==> BagOf(r, x) == Stored(e.validators[x.vi].kind, BagOf(e, x))
    ensures forall x :: x in e.index && e.validators[x.vi].kind.Latex? ==> !BagOf(r, x).anchor
  {
    var r := StoreAll(e, e.index);
    forall x | x in e.index ensures BagOf(r, x) == Stored(e.validators[x.vi].kind, BagOf(e, x)) {
      StoreAllBags(e, e.index, x);
    }
    r
  }

  /** The store loop over distinct regions marks dirty exactly the lines
      of the regions that showed their image, and then a pass is pending;
      when none did, the dirty lines and the pending pass are untouched. */
  lemma StoreAllDirty(e: Engine, todo: seq<Entry>)
    requires forall x :: x in todo ==> x.vi < |e.validators|
    requires IdsDistinct(todo)
    ensures var r := StoreAll(e, todo);
            forall l :: l in r.dirty <==> l in e.dirty || exists x :: x in todo && ShowsImage(e, x) && x.start.line == l
    ensures var r := StoreAll(e, todo);
            (exists x :: x in todo && ShowsImage(e, x)) ==> r.idleId != 0
    ensures var r := StoreAll(e, todo);
            (forall x :: x in todo ==> !ShowsImage(e, x)) ==> r.dirty == e.dirty && r.idleId == e.idleId && r.queued == e.queued
    ensures Pending(e) ==> Pending(StoreAll(e, todo))
    ensures Scheduler.Ascending(e.dirty) ==> Scheduler.Ascending(StoreAll(e, todo).dirty)
  {
    StoreAllLines(e, todo);
    StoreAllPending(e, todo);
  }

  /** Storing region `x` leaves whether another region shows its image as
      it was. */
  lemma StoreOneOther(e: Engine, x: Entry, y: Entry)
    requires x.vi < |e.validators| && y.vi < |e.validators| && x.id != y.id
    ensures ShowsImage(StoreOne(e, x), y) == ShowsImage(e, y)
  {
    var r := StoreOne(e, x);
    assert BagOf(r, y) == BagOf(e, y);
    assert r.validators[y.vi].kind == e.validators[y.vi].kind;
  }

  /** The lines the store loop marks dirty. */
  lemma {:induction false} StoreAllLines(e: Engine, todo: seq<Entry>)
    requires forall x :: x in todo ==> x.vi < |e.validators|
    requires IdsDistinct(todo)
    ensures var r := StoreAll(e, todo);
            forall l :: l in r.dirty <==> l in e.dirty || exists x :: x in todo && ShowsImage(e, x) && x.start.line == l
    ensures var r := StoreAll(e, todo);
            (forall x :: x in todo ==> !ShowsImage(e, x)) ==> r.dirty == e.dirty && r.idleId == e.idleId && r.queued == e.queued
    decreases |todo|
  {
    if |todo| > 0 {
      var x, tl := todo[0], todo[1..];
      var e1 := StoreOne(e, x);
      assert forall z :: z in todo <==> z == x || z in tl;
      DistinctTail(todo);
      forall y | y in tl ensures ShowsImage(e1, y) == ShowsImage(e, y) {
        StoreOneOther(e, x, y);
      }
      StoreAllLines(e1, tl);
    }
  }

  /** The store loop keeps a pending pass pending and the dirty list
      ascending, and it queues one when some region showed its image. */
  lemma {:induction false} StoreAllPending(e: Engine, todo: seq<Entry>)
    requires forall x :: x in todo ==> x.vi < |e.validators|
    requires IdsDistinct(todo)
    ensures Pending(e) ==> Pending(StoreAll(e, todo))
    ensures Scheduler.Ascending(e.dirty) ==> Scheduler.Ascending(StoreAll(e, todo).dirty)
    ensures (exists x :: x in todo && ShowsImage(e, x)) ==> StoreAll(e, todo).idleId != 0
    decreases |todo|
  {
    if |todo| > 0 {
      var x, tl := todo[0], todo[1..];
      var e1 := StoreOne(e, x);
      assert forall z :: z in todo <==> z == x || z in tl;
      DistinctTail(todo);
      forall y | y in tl ensures ShowsImage(e1, y) == ShowsImage(e, y) {
        StoreOneOther(e, x, y);
      }
      StoreAllPending(e1, tl);
      if ShowsImage(e, x) {
        StoreAllIdle(e1, tl);
      }
    }
  }

  /** A pass queued before the rest of the store loop stays queued. */
  lemma {:induction false} StoreAllIdle(e: Engine, todo: seq<Entry>)
    requires forall x :: x in todo ==> x.vi < |e.validators|
    requires e.idleId != 0 && Scheduler.Ascending(e.dirty)
    ensures StoreAll(e, todo).idleId != 0 && Scheduler.Ascending(StoreAll(e, todo).dirty)
    decreases |todo|
  {
    if |todo| > 0 {
      StoreAllIdle(StoreOne(e, todo[0]), todo[1..]);
    }
  }

  /** On save, deleting the shown images re-enters the engine: the lines
      of the regions that showed an image become dirty and a pass is
      pending, the rest of the engine's invariant holds, and when no image
      was shown the dirty lines and the pending pass are untouched. */
  lemma OnSaveDirty(e: Engine)
    requires Inv(e)
    ensures var r := OnSave(e);
            forall l :: l in r.dirty <==> l in e.dirty || exists x :: x in e.index && ShowsImage(e, x) && x.start.line == l
    ensures var r := OnSave(e);
            (exists x :: x in e.index && ShowsImage(e, x)) ==> r.idleId != 0
    ensures var r := OnSave(e);
            (forall x :: x in e.index ==> !ShowsImage(e, x)) ==> r.dirty == e.dirty && r.idleId == e.idleId && r.queued == e.queued
    ensures Inv(OnSave(e))
  {
    assert forall x :: x in e.index ==> x.vi < |e.validators| by {
      forall x | x in e.index ensures x.vi < |e.validators| { EntryOk(e, x); }
    }
    IdsDistinctOf(e.index);
    StoreAllDirty(e, e.index);
    var r := OnSave(e);
    SameRulesWellFormed(e, r.validators);
  }

  /** Every region flagged for restoring has an image to restore. */
  predicate CanRestore(e: Engine, todo: seq<Entry>)
    requires forall x :: x in todo ==> x.vi < |e.validators|
  {
    forall x :: x in todo && BagOf(e, x).restore ==> BagOf(e, x).pixbuf
  }

  /** One restore step changes only the restored region's data. */
  lemma RestoreStep(e: Engine, x: Entry, y: Entry)
    requires x.vi < |e.validators| && y.vi < |e.validators|
    requires BagOf(e, x).restore ==> BagOf(e, x).pixbuf
    ensures var (v, h) := V.RestoreAfterSave(e.validators[x.vi], BoundsOf(x), e.doc, e.host);
            var e1 := e.(validators := e.validators[x.vi := v], host := h);
            BagOf(e1, y) == if y.vi == x.vi && y.id == x.id then Restored(e.validators[y.vi].kind, BagOf(e, y)) else BagOf(e, y)
  {
  }

  /** The restore loop over `todo`. */
  function RestoreAll(e: Engine, todo: seq<Entry>): (r: Engine)
    requires forall x :: x in todo ==> x.vi < |e.validators|
    requires CanRestore(e, todo)
    ensures SameRules(e.validators, r.validators)
    ensures r == e.(validators := r.validators)
    decreases |todo|
  {
    if |todo| == 0 then e
    else
      var x := todo[0];
      assert x in todo;
      var (v, h) := V.RestoreAfterSave(e.validators[x.vi], BoundsOf(x), e.doc, e.host);
      var e1 := e.(validators := e.validators[x.vi := v], host := h);
      assert CanRestore(e1, todo[1..]) by {
        forall y | y in todo[1..] && BagOf(e1, y).restore ensures BagOf(e1, y).pixbuf {
          assert y in todo;
          RestoreStep(e, x, y);
        }
      }
      RestoreAll(e1, todo[1..])
  }

  /** Each region in the loop ends with its data restored once. */
  lemma {:induction false} RestoreAllBags(e: Engine, todo: seq<Entry>, y: Entry)
    requires forall x :: x in todo ==> x.vi < |e.validators|
    requires CanRestore(e, todo)
    requires y.vi < |e.validators|
    ensures BagOf(RestoreAll(e, todo), y) ==
            if exists x :: x in todo && x.vi == y.vi && x.id == y.id then Restored(e.validators[y.vi].kind, BagOf(e, y)) else BagOf(e, y)
    decreases |todo|
  {
    if |todo| > 0 {
      var x := todo[0];
      assert x in todo;
      var (v, h) := V.RestoreAfterSave(e.validators[x.vi], BoundsOf(x), e.doc, e.host);
      var e1 := e.(validators := e.validators[x.vi := v], host := h);
      assert CanRestore(e1, todo[1..]) by {
        forall z | z in todo[1..] && BagOf(e1, z).restore ensures BagOf(e1, z).pixbuf {
          assert z in todo;
          RestoreStep(e, x, z);
        }
      }
      RestoreStep(e, x, y);
      RestoreAllBags(e1, todo[1..], y);
      assert forall z :: z in todo <==> z == x || z in todo[1..];
    }
  }

  /** `on_saved`: every flagged LaTeX region gets its image back and loses
      the flag. */
  function OnSaved(e: Engine): (r: Engine)
    requires EntriesOk(e) && CanRestore(e, e.index)
    ensures r == e.(validators := r.validators)
    ensures SameRules(e.validators, r.validators)
    ensures forall x :: x in e.index ==> BagOf(r, x) == Restored(e.validators[x.vi].kind, BagOf(e, x))
    ensures forall x :: x in e.index && e.validators[x.vi].kind.Latex? ==> !BagOf(r, x).restore
  {
    var r := RestoreAll(e, e.index);
    forall x | x in e.index ensures BagOf(r, x) == Restored(e.validators[x.vi].kind, BagOf(e, x)) {
      RestoreAllBags(e, e.index, x);
    }
    r
  }

  /** Saving and then finishing the save gives every region back the data
      it had, provided none was flagged before and every image has its
      picture: an image is out of the buffer only while the file is
      written. */
  lemma SaveRestoresImages(e: Engine)
    requires EntriesOk(e)
    requires forall x :: x in e.index ==> !BagOf(e, x).restore && (BagOf(e, x).anchor ==> BagOf(e, x).pixbuf)
    ensures CanRestore(OnSave(e), e.index)
    ensures forall x :: x in e.index ==> BagOf(OnSaved(OnSave(e)), x) == BagOf(e, x)
  {
  }
}
