/** The validators of plugin/jft/Validators.py: a pattern, the regions the
    validator owns, and the presentation state it keeps for them.

    Every validator carries the state of the hiding validators (the cells
    covered by its "invisible" and "visible" tags) and of the LaTeX
    validator (render jobs, the poll timer, the per-region attribute bag and
    the processes and temporary file sets that exist); a plain validator
    never touches any of it.  Regions are named by numeric ids; processes,
    temporary file sets and glib sources are numeric handles drawn from a
    counter in `Host`. */
module Validators {
  import opened Wrappers
  import opened Seqs
  import opened Regex
  import opened Buffer
  import Patterns

  /** `Validator` (no effects), `ValidatorHide` with its visible groups, or
      `ValidatorLatex` (a hiding validator with no visible group that renders
      its regions). */
  datatype Kind = Plain | Hide(visibleParts: seq<nat>) | Latex

  /** The groups a kind un-hides. */
  function VisibleParts(k: Kind): seq<nat> {
    if k.Hide? then k.visibleParts else []
  }

  /** A region as a validator sees it: its id and the current positions of
      its start and end marks. */
  datatype Bounds = Bounds(id: nat, start: Pos, end: Pos)

  /** The keys of `bounds.data` the LaTeX validator uses: a rendered image,
      an image character in the buffer, and the "restore after save" flag. */
  datatype Bag = Bag(pixbuf: bool, anchor: bool, restore: bool)

  const EmptyBag := Bag(false, false, false)

  /** A running render: the region, its temporary file set and its process. */
  datatype Job = Job(bounds: Bounds, name: nat, proc: nat)

  /** The host state validators touch: the buffer's modified flag and the
      source of fresh handles. */
  datatype Host = Host(modified: bool, next: nat)

  datatype Validator = Validator(
    kind: Kind,
    rule: Option<Pattern>,
    active: seq<nat>,        // ids of the regions added, in order
    invisible: set<Pos>,     // cells under the invisible tag
    visible: set<Pos>,       // cells under the visible tag
    jobs: map<nat, Job>,     // `_running_procs`, by region id
    timer: nat,              // `_timeout_id`; 0 when no poll timer exists
    bags: map<nat, Bag>,     // `bounds.data`, by region id
    procs: set<nat>,         // render processes that exist
    files: set<nat>)         // temporary file sets on disk

  function New(kind: Kind, rule: Option<Pattern>): (v: Validator)
    ensures v.active == [] && v.jobs == map[] && v.timer == 0
  {
    Validator(kind, rule, [], {}, {}, map[], 0, map[], {}, {})
  }

  /** The four validators of the plugin.  Only Meta and Latex are created by
      the engine. */
  const MetaValidator: Validator := New(Hide([2]), Some(Patterns.Meta))
  const EmphasizeValidator: Validator := New(Hide([1]), Some(Patterns.Emphasize))
  const StrongValidator: Validator := New(Hide([1]), Some(Patterns.Strong))
  const LatexValidator: Validator := New(Latex, Some(Patterns.Math))

  /** A hiding validator has a rule, and every group it un-hides is a group
      the rule closes (so `m.start(idx)` is defined for each of them). */
  predicate WellFormed(v: Validator) {
    (v.kind != Plain ==> v.rule.Some?) &&
    (v.rule.Some? ==> forall idx :: idx in VisibleParts(v.kind) ==> idx == 0 || Close(idx) in v.rule.value)
  }

  lemma BuiltinsWellFormed()
    ensures WellFormed(MetaValidator) && WellFormed(EmphasizeValidator)
    ensures WellFormed(StrongValidator) && WellFormed(LatexValidator)
  {
    assert Patterns.Meta[13] == Close(2);
    assert Patterns.Emphasize[6] == Close(1);
    assert Patterns.Strong[5] == Close(1);
  }

  // ---------------------------------------------------------------------
  // Matching

  /** `match_exact(text)`: the rule, anchored at the start of `text`, matches
      all of it. */
  predicate MatchExact(v: Validator, text: string) {
    v.rule.Some? && MatchAt(v.rule.value, text, 0).Some? && MatchAt(v.rule.value, text, 0).value.end == |text|
  }

  /** For the LaTeX validator `match_exact` accepts exactly a `$`, a body
      without `$` or newline, and a closing `$`. */
  lemma LatexMatchExact(t: string)
    ensures MatchExact(LatexValidator, t) <==>
            |t| >= 2 && t[0] == '$' && t[|t| - 1] == '$' &&
            forall q :: 1 <= q < |t| - 1 ==> t[q] != '$' && t[q] != '\n'
  {
    Patterns.MathExact(t);
  }

  /** `match(line)`: no matches without a rule; otherwise every
      non-overlapping match, left to right, each one the match the rule finds
      anchored at its start, and none earlier than the first. */
  function MatchLine(v: Validator, line: string): (r: seq<Match>)
    ensures v.rule.None? ==> r == []
    ensures forall k :: 0 <= k < |r| ==> r[k].start <= r[k].end <= |line|
    ensures v.rule.Some? ==> forall k :: 0 <= k < |r| ==> MatchAt(v.rule.value, line, r[k].start) == Some(r[k])
    ensures forall k :: 0 <= k < |r| - 1 ==> r[k].end <= r[k + 1].start
    ensures v.rule.Some? ==> forall q :: 0 <= q <= |line| && (|r| == 0 || q < r[0].start) ==> MatchAt(v.rule.value, line, q).None?
    ensures v.rule.Some? ==> NoneSkipped(v.rule.value, line, r)
  {
    if v.rule.None? then [] else FindAll(v.rule.value, line)
  }

  /** `match(line)` misses nothing: wherever the rule matches on the line,
      a returned match starts there or holds that offset. */
  lemma MatchLineComplete(v: Validator, line: string, q: nat)
    requires v.rule.Some? && q <= |line| && MatchAt(v.rule.value, line, q).Some?
    ensures exists m :: m in MatchLine(v, line) && m.start <= q < Resume(m)
  {
    FindAllComplete(v.rule.value, line, q);
    var r := MatchLine(v, line);
    var k :| 0 <= k < |r| && r[k].start <= q < Resume(r[k]);
    assert r[k] in r;
  }

  /** A matched region's text is accepted by `match_exact`. */
  lemma MatchedTextIsExact(v: Validator, line: string, m: Match)
    requires v.rule.Some? && m in MatchLine(v, line)
    ensures MatchExact(v, line[m.start..m.end])
  {
    MatchAtCut(v.rule.value, line, m.start, m.end);
  }

  // ---------------------------------------------------------------------
  // Regions owned

  /** `add(bounds)`: the region is recorded once. */
  function Add(v: Validator, id: nat): (r: Validator)
    ensures id in r.active
    ensures NoDup(v.active) ==> NoDup(r.active)
    ensures id in v.active ==> r == v
    ensures id !in v.active ==> r.active == v.active + [id] && r == v.(active := r.active)
  {
    if id in v.active then v else v.(active := v.active + [id])
  }

  // ---------------------------------------------------------------------
  // Tag effects of the hiding validators

  /** `iters_for(bounds, m, idx)`: the span of group `idx`, measured from the
      region start with the match's own start as origin.  Lines are taken
      as ASCII, so the match's offsets are columns. */
  function ItersFor(b: Bounds, m: Match, idx: nat): (r: (Pos, Pos))
    requires idx == 0 || idx in m.caps
    ensures r.0.line == b.start.line && r.1.line == b.start.line
    ensures r.0.col - b.start.col == m.Group(idx).lo - m.start
    ensures r.1.col - b.start.col == m.Group(idx).hi - m.start
  {
    var off := m.start;
    (Pos(b.start.line, b.start.col + m.Group(idx).lo - off),
     Pos(b.start.line, b.start.col + m.Group(idx).hi - off))
  }

  /** The cells of group `idx` of a match. */
  function GroupCells(doc: Doc, b: Bounds, m: Match, idx: nat): set<Pos>
    requires idx == 0 || idx in m.caps
  {
    Cells(doc, ItersFor(b, m, idx).0, ItersFor(b, m, idx).1)
  }

  /** The groups of a match all exist. */
  predicate HasGroups(m: Match, parts: seq<nat>) {
    forall k :: 0 <= k < |parts| ==> parts[k] == 0 || parts[k] in m.caps
  }

  /** The cells of all the visible groups. */
  function VisibleCells(doc: Doc, b: Bounds, m: Match, parts: seq<nat>): (r: set<Pos>)
    requires HasGroups(m, parts)
    ensures forall p :: p in r <==> exists k :: 0 <= k < |parts| && p in GroupCells(doc, b, m, parts[k])
  {
    var cells := seq(|parts|, k requires 0 <= k < |parts| => GroupCells(doc, b, m, parts[k]));
    assert forall k :: 0 <= k < |parts| ==> cells[k] == GroupCells(doc, b, m, parts[k]);
    Union(cells)
  }

  /** A cell is hidden when the invisible tag covers it and the visible tag
      (created later, so of higher priority) does not. */
  predicate Hidden(v: Validator, p: Pos) {
    p in v.invisible && p !in v.visible
  }

  /** `ValidatorHide.validate`: hide the whole match, then un-hide each
      visible group.  Nothing but the two tags changes. */
  function HideValidate(v: Validator, b: Bounds, m: Match, doc: Doc): (r: Validator)
    requires HasGroups(m, VisibleParts(v.kind))
    ensures r.invisible == v.invisible + GroupCells(doc, b, m, 0)
    ensures forall p :: p in r.visible <==>
              p in v.visible || exists k :: 0 <= k < |VisibleParts(v.kind)| && p in GroupCells(doc, b, m, VisibleParts(v.kind)[k])
    ensures r.(invisible := v.invisible, visible := v.visible) == v
  {
    v.(invisible := v.invisible + GroupCells(doc, b, m, 0),
       visible := v.visible + VisibleCells(doc, b, m, VisibleParts(v.kind)))
  }

  /** `ValidatorHide.invalidate` (and so `enter`): both tags are removed over
      the region; nothing outside it changes. */
  function HideInvalidate(v: Validator, b: Bounds, doc: Doc): (r: Validator)
    ensures forall p :: InRange(p, b.start, b.end) && IsCell(doc, p) ==> p !in r.invisible && p !in r.visible
    ensures forall p :: !InRange(p, b.start, b.end) ==> (p in r.invisible <==> p in v.invisible) && (p in r.visible <==> p in v.visible)
    ensures r.(invisible := v.invisible, visible := v.visible) == v
  {
    v.(invisible := v.invisible - Cells(doc, b.start, b.end),
       visible := v.visible - Cells(doc, b.start, b.end))
  }

  /** Validating a match that lies inside the region and then reverting the
      region leaves the tags exactly as they were, provided no tag covered
      the region before. */
  lemma HideValidateThenInvalidate(v: Validator, b: Bounds, m: Match, doc: Doc)
    requires HasGroups(m, VisibleParts(v.kind))
    requires forall p :: InRange(p, b.start, b.end) ==> p !in v.invisible && p !in v.visible
    requires b.start.line == b.end.line && b.start.col <= b.end.col
    requires m.start <= m.end && b.end.col - b.start.col == m.end - m.start
    requires forall g :: g in m.caps ==> m.start <= m.caps[g].lo <= m.caps[g].hi <= m.end
    ensures HideInvalidate(HideValidate(v, b, m, doc), b, doc) == v
  {
    var r := HideInvalidate(HideValidate(v, b, m, doc), b, doc);
    forall idx | idx == 0 || idx in m.caps
      ensures forall p :: p in GroupCells(doc, b, m, idx) ==> InRange(p, b.start, b.end)
    {
    }
    assert r.invisible == v.invisible;
    assert r.visible == v.visible;
  }

  /** After `validate` on untagged cells, a cell of the match is hidden
      exactly when no visible group covers it. */
  lemma HideValidateHides(v: Validator, b: Bounds, m: Match, doc: Doc, p: Pos)
    requires HasGroups(m, VisibleParts(v.kind))
    requires p !in v.invisible && p !in v.visible
    requires p in GroupCells(doc, b, m, 0)
    ensures Hidden(HideValidate(v, b, m, doc), p) <==>
            forall k :: 0 <= k < |VisibleParts(v.kind)| ==> p !in GroupCells(doc, b, m, VisibleParts(v.kind)[k])
  {
  }

  // ---------------------------------------------------------------------
  // The LaTeX validator's render jobs

  /** The bag of a region; a region with no data has an empty bag. */
  function GetBag(v: Validator, id: nat): Bag {
    if id in v.bags then v.bags[id] else EmptyBag
  }

  function JobProcs(jobs: map<nat, Job>): set<nat> {
    set id | id in jobs :: jobs[id].proc
  }

  function JobNames(jobs: map<nat, Job>): set<nat> {
    set id | id in jobs :: jobs[id].name
  }

  /** No two jobs share a process or a file set. */
  predicate Distinct(jobs: map<nat, Job>) {
    forall i, j :: i in jobs && j in jobs && i != j ==>
      jobs[i].proc != jobs[j].proc && jobs[i].name != jobs[j].name
  }

  /** The jobs of the regions not in `gone`. */
  function DropJobs(jobs: map<nat, Job>, gone: set<nat>): (r: map<nat, Job>)
    ensures forall id :: id in r <==> id in jobs && id !in gone
    ensures forall id :: id in r ==> r[id] == jobs[id]
  {
    map id | id in jobs && id !in gone :: jobs[id]
  }

  /** Dropping jobs releases exactly their processes and file sets. */
  lemma DropJobsHandles(jobs: map<nat, Job>, gone: set<nat>)
    requires Distinct(jobs)
    ensures Distinct(DropJobs(jobs, gone))
    ensures JobProcs(DropJobs(jobs, gone)) == JobProcs(jobs) - (set id | id in jobs && id in gone :: jobs[id].proc)
    ensures JobNames(DropJobs(jobs, gone)) == JobNames(jobs) - (set id | id in jobs && id in gone :: jobs[id].name)
  {
    var r := DropJobs(jobs, gone);
    forall x | x in JobProcs(jobs) - (set id | id in jobs && id in gone :: jobs[id].proc)
      ensures x in JobProcs(r)
    {
      var id :| id in jobs && jobs[id].proc == x;
      assert id in r;
    }
    forall x | x in JobNames(jobs) - (set id | id in jobs && id in gone :: jobs[id].name)
      ensures x in JobNames(r)
    {
      var id :| id in jobs && jobs[id].name == x;
      assert id in r;
    }
  }

  /** Filing a job with fresh handles adds exactly its process and file set. */
  lemma AddJobHandles(jobs: map<nat, Job>, id: nat, job: Job)
    requires Distinct(jobs) && id !in jobs
    requires job.proc !in JobProcs(jobs) && job.name !in JobNames(jobs)
    ensures Distinct(jobs[id := job])
    ensures JobProcs(jobs[id := job]) == JobProcs(jobs) + {job.proc}
    ensures JobNames(jobs[id := job]) == JobNames(jobs) + {job.name}
  {
    var r := jobs[id := job];
    forall x | x in JobProcs(jobs) ensures x in JobProcs(r) {
      var j :| j in jobs && jobs[j].proc == x;
      assert r[j] == jobs[j];
    }
    forall x | x in JobNames(jobs) ensures x in JobNames(r) {
      var j :| j in jobs && jobs[j].name == x;
      assert r[j] == jobs[j];
    }
    assert job.proc in JobProcs(r) && job.name in JobNames(r) by { assert r[id] == job; }
  }

  /** The render bookkeeping is consistent:
      - the poll timer exists exactly while some job is outstanding;
      - every job is filed under its own region;
      - the processes and temporary file sets that exist are exactly those
        of the outstanding jobs, and no two jobs share one;
      - every handle was issued before `next`;
      - an image character or a pending restore only exists with an image. */
  predicate LatexInv(v: Validator, next: nat) {
    (v.timer != 0 <==> v.jobs != map[]) &&
    v.timer < next &&
    (forall id :: id in v.jobs ==> v.jobs[id].bounds.id == id) &&
    v.procs == JobProcs(v.jobs) && v.files == JobNames(v.jobs) && Distinct(v.jobs) &&
    (forall id :: id in v.jobs ==> v.jobs[id].proc < next && v.jobs[id].name < next) &&
    (forall id :: id in v.bags ==> (v.bags[id].anchor || v.bags[id].restore) ==> v.bags[id].pixbuf)
  }

  /** `_stop_running(bounds)`: a job for the region has its process killed
      and its files removed and is dropped; the timer is cancelled once no
      job remains.  Without a job nothing happens. */
  function StopRunning(v: Validator, id: nat): (r: Validator)
    ensures id !in r.jobs
    ensures forall j :: j != id ==> (j in r.jobs <==> j in v.jobs) && (j in r.jobs ==> r.jobs[j] == v.jobs[j])
    ensures id !in v.jobs ==> r == v
    ensures id in v.jobs ==> r.procs == v.procs - {v.jobs[id].proc} && r.files == v.files - {v.jobs[id].name}
    ensures id in v.jobs && r.jobs == map[] ==> r.timer == 0
    ensures r.jobs != map[] ==> r.timer == v.timer
    ensures r.(jobs := v.jobs, procs := v.procs, files := v.files, timer := v.timer) == v
  {
    if id !in v.jobs then v
    else
      var job := v.jobs[id];
      var jobs := DropJobs(v.jobs, {id});
      v.(jobs := jobs,
         procs := v.procs - {job.proc},
         files := v.files - {job.name},
         timer := if jobs == map[] then 0 else v.timer)
  }

  /** Stopping a job keeps the bookkeeping consistent. */
  lemma StopRunningKeepsInv(v: Validator, id: nat, next: nat)
    requires LatexInv(v, next)
    ensures LatexInv(StopRunning(v, id), next)
  {
    if id in v.jobs {
      DropJobsHandles(v.jobs, {id});
      var gone := set j | j in v.jobs && j in {id} :: v.jobs[j].proc;
      assert gone == {v.jobs[id].proc};
      var goneNames := set j | j in v.jobs && j in {id} :: v.jobs[j].name;
      assert goneNames == {v.jobs[id].name};
      var r := StopRunning(v, id);
      if r.jobs != map[] {
        var j :| j in r.jobs;
      }
    }
  }

  /** Buffer edits that must not show as user modifications: the edit marks
      the buffer modified, and the flag is put back if it was clear. */
  function QuietEdit(h: Host): (r: Host)
    ensures r.modified == h.modified && r.next == h.next
  {
    var edited := h.(modified := true);
    if !h.modified then edited.(modified := false) else edited
  }

  /** `_remove_pixbuf(bounds)`: the image character of the region, if any,
      is deleted, without marking the buffer modified. */
  function RemovePixbuf(v: Validator, id: nat, h: Host): (r: (Validator, Host))
    ensures !GetBag(r.0, id).anchor
    ensures GetBag(r.0, id) == GetBag(v, id).(anchor := false)
    ensures forall j :: j != id ==> GetBag(r.0, j) == GetBag(v, j)
    ensures r.0.(bags := v.bags) == v
    ensures r.1 == h
  {
    if !GetBag(v, id).anchor then (v, h)
    else (v.(bags := v.bags[id := GetBag(v, id).(anchor := false)]), QuietEdit(h))
  }

  /** `_show_pixbuf(bounds)`: the region's text is hidden and its image is
      put in front of it (replacing an earlier one), without marking the
      buffer modified.  The region must already have an image. */
  function ShowPixbuf(v: Validator, b: Bounds, doc: Doc, h: Host): (r: (Validator, Host))
    requires GetBag(v, b.id).pixbuf
    ensures r.0.invisible == v.invisible + Cells(doc, b.start, b.end)
    ensures GetBag(r.0, b.id) == GetBag(v, b.id).(anchor := true)
    ensures forall j :: j != b.id ==> GetBag(r.0, j) == GetBag(v, j)
    ensures r.0.(invisible := v.invisible, bags := v.bags) == v
    ensures r.1 == h
  {
    var v1 := v.(invisible := v.invisible + Cells(doc, b.start, b.end));
    var (v2, h2) := RemovePixbuf(v1, b.id, h);
    var h3 := QuietEdit(h2);
    (v2.(bags := v2.bags[b.id := GetBag(v2, b.id).(anchor := true)]), h3)
  }

  /** `_process_done(bounds, name, ret)`: on success the image is recorded
      and shown; the temporary files go away either way. */
  function ProcessDone(v: Validator, b: Bounds, name: nat, ret: int, doc: Doc, h: Host): (r: (Validator, Host))
    ensures r.0.files == v.files - {name}
    ensures ret == 0 ==> GetBag(r.0, b.id) == GetBag(v, b.id).(pixbuf := true, anchor := true)
    ensures ret == 0 ==> r.0.invisible == v.invisible + Cells(doc, b.start, b.end)
    ensures ret != 0 ==> r.0 == v.(files := v.files - {name})
    ensures forall j :: j != b.id ==> GetBag(r.0, j) == GetBag(v, j)
    ensures r.0.jobs == v.jobs && r.0.procs == v.procs && r.0.timer == v.timer
    ensures r.1 == h
  {
    if ret == 0 then
      var v1 := v.(bags := v.bags[b.id := GetBag(v, b.id).(pixbuf := true)]);
      var (v2, h2) := ShowPixbuf(v1, b, doc, h);
      (v2.(files := v2.files - {name}), h2)
    else (v.(files := v.files - {name}), h)
  }

  /** The regions whose render process has finished, by `polls` (the exit
      code of every process that has exited). */
  function Finished(jobs: map<nat, Job>, polls: map<nat, int>): set<nat>
  {
    set id | id in jobs && jobs[id].proc in polls
  }

  /** The finished regions whose render succeeded. */
  function Succeeded(jobs: map<nat, Job>, polls: map<nat, int>): set<nat>
  {
    set id | id in jobs && jobs[id].proc in polls && polls[jobs[id].proc] == 0
  }

  /** The cells of the regions of the given jobs. */
  function JobCells(doc: Doc, jobs: map<nat, Job>, ids: set<nat>): (r: set<Pos>)
    ensures forall id, p :: id in ids && id in jobs && p in Cells(doc, jobs[id].bounds.start, jobs[id].bounds.end) ==> p in r
  {
    set id, p | id in ids && id in jobs && p in Cells(doc, jobs[id].bounds.start, jobs[id].bounds.end) :: p
  }

  /** Bags of the given regions after their image was shown. */
  function ShowBags(v: Validator, ids: set<nat>): (r: map<nat, Bag>)
    ensures forall id :: id in ids ==> id in r && r[id] == GetBag(v, id).(pixbuf := true, anchor := true)
    ensures forall id :: id !in ids ==> (id in r <==> id in v.bags) && (id in r ==> r[id] == v.bags[id])
  {
    map id | id in v.bags.Keys + ids :: if id in ids then GetBag(v, id).(pixbuf := true, anchor := true) else v.bags[id]
  }

  /** `_check_running_procs()`: each finished job is handed to
      `_process_done` and dropped; the call keeps the timer (returns true)
      while jobs remain and otherwise clears its id and returns false.  The
      per-job effects touch only that job's region, files and process, so
      the dictionary's iteration order does not matter and they are applied
      together. */
  function CheckRunningProcs(v: Validator, polls: map<nat, int>, doc: Doc, h: Host): (r: (bool, Validator, Host))
    ensures forall id :: id in r.1.jobs <==> id in v.jobs && v.jobs[id].proc !in polls
    ensures forall id :: id in r.1.jobs ==> r.1.jobs[id] == v.jobs[id]
    ensures r.0 <==> r.1.jobs != map[]
    ensures !r.0 ==> r.1.timer == 0
    ensures r.0 ==> r.1.timer == v.timer
    ensures forall id :: id in v.jobs && v.jobs[id].proc in polls ==> v.jobs[id].name !in r.1.files
    ensures forall id :: id in v.jobs && v.jobs[id].proc in polls && polls[v.jobs[id].proc] == 0 ==>
              GetBag(r.1, id).pixbuf && GetBag(r.1, id).anchor
    ensures forall id :: !(id in v.jobs && v.jobs[id].proc in polls && polls[v.jobs[id].proc] == 0) ==>
              GetBag(r.1, id) == GetBag(v, id)
    ensures r.2 == h
  {
    var finished := Finished(v.jobs, polls);
    var ok := Succeeded(v.jobs, polls);
    var jobs := DropJobs(v.jobs, finished);
    var r := v.(jobs := jobs,
                procs := v.procs - (set id | id in v.jobs && id in finished :: v.jobs[id].proc),
                files := v.files - (set id | id in v.jobs && id in finished :: v.jobs[id].name),
                invisible := v.invisible + JobCells(doc, v.jobs, ok),
                bags := ShowBags(v, ok),
                timer := if jobs == map[] then 0 else v.timer);
    (jobs != map[], r, h)
  }

  /** Polling keeps the bookkeeping consistent. */
  lemma CheckRunningProcsKeepsInv(v: Validator, polls: map<nat, int>, doc: Doc, h: Host, next: nat)
    requires LatexInv(v, next)
    ensures LatexInv(CheckRunningProcs(v, polls, doc, h).1, next)
  {
    DropJobsHandles(v.jobs, Finished(v.jobs, polls));
    var r := CheckRunningProcs(v, polls, doc, h).1;
    if r.jobs != map[] {
      var j :| j in r.jobs;
    }
  }

  /** When a single job has finished, polling does what `_process_done` does
      for it, and drops it. */
  lemma CheckOneFinished(v: Validator, polls: map<nat, int>, doc: Doc, h: Host, id: nat)
    requires id in v.jobs && Finished(v.jobs, polls) == {id}
    requires v.jobs[id].bounds.id == id
    ensures var job := v.jobs[id];
            var (v1, _) := ProcessDone(v, job.bounds, job.name, polls[job.proc], doc, h);
            var r := CheckRunningProcs(v, polls, doc, h).1;
            r.invisible == v1.invisible && r.files == v1.files &&
            (forall j :: GetBag(r, j) == GetBag(v1, j))
  {
    var job := v.jobs[id];
    var ok := Succeeded(v.jobs, polls);
    assert ok == if polls[job.proc] == 0 then {id} else {};
    assert (set j | j in v.jobs && j in Finished(v.jobs, polls) :: v.jobs[j].name) == {job.name};
    var r := CheckRunningProcs(v, polls, doc, h).1;
    if polls[job.proc] == 0 {
      assert JobCells(doc, v.jobs, ok) == Cells(doc, job.bounds.start, job.bounds.end);
    } else {
      assert JobCells(doc, v.jobs, ok) == {};
    }
  }

  /** A job recorded for region `id`, with its process and file name
      tracked and the timer set. */
  function AddJob(v: Validator, id: nat, job: Job, timer: nat): Validator {
    v.(jobs := v.jobs[id := job], procs := v.procs + {job.proc}, files := v.files + {job.name}, timer := timer)
  }

  /** `generate_latex(bounds)`: any job of the region is stopped first, then
      a new job with fresh file set and process is filed under the region;
      the poll timer is created only when none exists. */
  function GenerateLatex(v: Validator, b: Bounds, h: Host): (r: (Validator, Host))
    ensures b.id in r.0.jobs && r.0.jobs[b.id].bounds == b
    ensures forall j :: j != b.id ==> (j in r.0.jobs <==> j in v.jobs) && (j in r.0.jobs ==> r.0.jobs[j] == v.jobs[j])
    ensures r.0.timer != 0
    ensures StopRunning(v, b.id).timer != 0 ==> r.0.timer == v.timer
    ensures r.0.(jobs := v.jobs, procs := v.procs, files := v.files, timer := v.timer) == v
    ensures r.1.modified == h.modified && r.1.next == h.next + 3
  {
    var v1 := StopRunning(v, b.id);
    var name := h.next;
    var proc := h.next + 1;
    var timer := if v1.timer == 0 then h.next + 2 else v1.timer;
    (AddJob(v1, b.id, Job(b, name, proc), timer), h.(next := h.next + 3))
  }

  /** Filing a job with fresh handles, with a timer running, keeps the
      bookkeeping consistent. */
  lemma AddJobKeepsInv(v: Validator, id: nat, job: Job, timer: nat, next: nat, next': nat)
    requires LatexInv(v, next) && id !in v.jobs && job.bounds.id == id
    requires next <= job.proc < next' && next <= job.name < next'
    requires timer != 0 && timer < next' && (v.timer != 0 ==> timer == v.timer)
    ensures LatexInv(AddJob(v, id, job, timer), next')
  {
    assert job.proc !in JobProcs(v.jobs) && job.name !in JobNames(v.jobs);
    AddJobHandles(v.jobs, id, job);
    assert id in v.jobs[id := job];
  }

  /** A new render replaces the old one: the superseded process is gone and
      its files are removed, and the bookkeeping stays consistent. */
  lemma GenerateLatexReplaces(v: Validator, b: Bounds, h: Host)
    requires LatexInv(v, h.next)
    ensures var r := GenerateLatex(v, b, h);
            LatexInv(r.0, r.1.next) &&
            (b.id in v.jobs ==> v.jobs[b.id].proc !in r.0.procs && v.jobs[b.id].name !in r.0.files)
  {
    GenerateLatexKeepsInv(v, b, h);
    GenerateLatexDropsOld(v, b, h);
  }

  lemma GenerateLatexKeepsInv(v: Validator, b: Bounds, h: Host)
    requires LatexInv(v, h.next)
    ensures var r := GenerateLatex(v, b, h); LatexInv(r.0, r.1.next)
  {
    var v1 := StopRunning(v, b.id);
    StopRunningKeepsInv(v, b.id, h.next);
    var job := Job(b, h.next, h.next + 1);
    var timer := if v1.timer == 0 then h.next + 2 else v1.timer;
    AddJobKeepsInv(v1, b.id, job, timer, h.next, h.next + 3);
    assert GenerateLatex(v, b, h).0 == AddJob(v1, b.id, job, timer);
    assert GenerateLatex(v, b, h).1.next == h.next + 3;
  }

  lemma GenerateLatexDropsOld(v: Validator, b: Bounds, h: Host)
    requires LatexInv(v, h.next)
    ensures var r := GenerateLatex(v, b, h);
            b.id in v.jobs ==> v.jobs[b.id].proc !in r.0.procs && v.jobs[b.id].name !in r.0.files
  {
    var v1 := StopRunning(v, b.id);
    assert GenerateLatex(v, b, h).0.procs == v1.procs + {h.next + 1};
    assert GenerateLatex(v, b, h).0.files == v1.files + {h.next};
  }

  // ---------------------------------------------------------------------
  // The hooks, by kind

  /** No tag is left over the region's cells. */
  ghost predicate Untagged(v: Validator, b: Bounds, doc: Doc) {
    forall p :: InRange(p, b.start, b.end) && IsCell(doc, p) ==> p !in v.invisible && p !in v.visible
  }

  /** Nothing of the region's presentation is left: no tag over its cells,
      no render job and no image. */
  ghost predicate Reverted(v: Validator, b: Bounds, doc: Doc) {
    Untagged(v, b, doc) && b.id !in v.jobs && !GetBag(v, b.id).anchor
  }

  /** `validate(bounds, match)`: the hiding validators tag the match; the
      LaTeX validator starts a render (its text is not hidden until the
      render succeeds). */
  function Validate(v: Validator, b: Bounds, m: Match, doc: Doc, h: Host): (r: (Validator, Host))
    requires HasGroups(m, VisibleParts(v.kind))
    ensures r.0.active == v.active && r.0.kind == v.kind && r.0.rule == v.rule
    ensures v.kind.Plain? ==> r == (v, h)
    ensures v.kind.Hide? ==> GroupCells(doc, b, m, 0) <= r.0.invisible && r.0.jobs == v.jobs
    ensures v.kind.Latex? ==> b.id in r.0.jobs && r.0.jobs[b.id].bounds == b && r.0.timer != 0
    ensures r.0.bags == v.bags
    ensures r.1.modified == h.modified
  {
    match v.kind
    case Plain => (v, h)
    case Hide(_) => (HideValidate(v, b, m, doc), h)
    case Latex => GenerateLatex(v, b, h)
  }

  /** `invalidate(bounds)`: remove the region's presentation; the LaTeX
      validator also stops its render and removes its image. */
  function Invalidate(v: Validator, b: Bounds, doc: Doc, h: Host): (r: (Validator, Host))
    ensures r.0.active == v.active && r.0.kind == v.kind && r.0.rule == v.rule
    ensures v.kind.Plain? ==> r == (v, h)
    ensures v.kind.Hide? ==> r.0.jobs == v.jobs && r.0.bags == v.bags
    ensures !v.kind.Plain? ==> Untagged(r.0, b, doc)
    ensures v.kind.Latex? ==> Reverted(r.0, b, doc)
    ensures v.kind.Latex? ==> GetBag(r.0, b.id) == GetBag(v, b.id).(anchor := false)
    ensures forall j :: j != b.id ==> GetBag(r.0, j) == GetBag(v, j)
    ensures r.1 == h
  {
    match v.kind
    case Plain => (v, h)
    case Hide(_) => (HideInvalidate(v, b, doc), h)
    case Latex =>
      var v1 := StopRunning(v, b.id);
      var (v2, h2) := RemovePixbuf(v1, b.id, h);
      (HideInvalidate(v2, b, doc), h2)
  }

  /** `enter(bounds)`: reveal the raw text; the LaTeX validator stops its
      render and removes its image as well. */
  function Enter(v: Validator, b: Bounds, doc: Doc, h: Host): (r: (Validator, Host))
    ensures r.0.active == v.active && r.0.kind == v.kind && r.0.rule == v.rule
    ensures v.kind.Plain? ==> r == (v, h)
    ensures v.kind.Hide? ==> r == Invalidate(v, b, doc, h)
    ensures v.kind.Latex? ==> Reverted(r.0, b, doc)
    ensures v.kind.Latex? ==> GetBag(r.0, b.id) == GetBag(v, b.id).(anchor := false)
    ensures forall j :: j != b.id ==> GetBag(r.0, j) == GetBag(v, j)
    ensures r.1 == h
  {
    match v.kind
    case Plain => (v, h)
    case Hide(_) => (HideInvalidate(v, b, doc), h)
    case Latex =>
      var (v1, h1) := Invalidate(v, b, doc, h);
      var v2 := StopRunning(v1, b.id);
      RemovePixbuf(v2, b.id, h1)
  }

  /** `exit(bounds)`: match the region's current text again and, if the rule
      still matches at its start, validate it. */
  function Exit(v: Validator, b: Bounds, doc: Doc, h: Host): (r: (Validator, Host))
    requires WellFormed(v)
    ensures r.0.active == v.active && r.0.kind == v.kind && r.0.rule == v.rule
    ensures r.0.bags == v.bags
    ensures v.kind.Plain? || MatchAt(v.rule.value, Slice(doc, b.start, b.end), 0).None? ==> r == (v, h)
    ensures !v.kind.Plain? && MatchAt(v.rule.value, Slice(doc, b.start, b.end), 0).Some? ==>
              var m := MatchAt(v.rule.value, Slice(doc, b.start, b.end), 0).value;
              HasGroups(m, VisibleParts(v.kind)) && r == Validate(v, b, m, doc, h)
  {
    if v.kind.Plain? then (v, h)
    else
      var text := Slice(doc, b.start, b.end);
      match MatchAt(v.rule.value, text, 0)
      case None => (v, h)
      case Some(m) =>
        MatchAtHasClosedGroups(v.rule.value, text, 0);
        Validate(v, b, m, doc, h)
  }

  /** `remove(bounds)`: revert the region, then forget it. */
  function Remove(v: Validator, b: Bounds, doc: Doc, h: Host): (r: (Validator, Host))
    ensures multiset(r.0.active) == multiset(v.active) - multiset{b.id}
    ensures NoDup(v.active) ==> NoDup(r.0.active) && b.id !in r.0.active
    ensures r.0.(active := v.active) == Invalidate(v, b, doc, h).0 && r.1 == h
    ensures r.0.kind == v.kind && r.0.rule == v.rule
    ensures !v.kind.Plain? ==> Untagged(r.0, b, doc)
    ensures v.kind.Latex? ==> Reverted(r.0, b, doc)
  {
    var (v1, h1) := Invalidate(v, b, doc, h);
    var r := (v1.(active := RemoveFirst(v1.active, b.id)), h1);
    if NoDup(v.active) then RemoveFirstNoDup(v.active, b.id); r else r
  }

  /** `store_for_save(bounds)`: an image in the buffer is removed and the
      region is flagged for restoring; without an image nothing happens. */
  function StoreForSave(v: Validator, id: nat, h: Host): (r: (Validator, Host))
    ensures !v.kind.Latex? || !GetBag(v, id).anchor ==> r == (v, h)
    ensures v.kind.Latex? ==> !GetBag(r.0, id).anchor
    ensures v.kind.Latex? && GetBag(v, id).anchor ==> GetBag(r.0, id) == GetBag(v, id).(anchor := false, restore := true)
    ensures forall j :: j != id ==> GetBag(r.0, j) == GetBag(v, j)
    ensures r.0.(bags := v.bags) == v
    ensures r.1 == h
  {
    if v.kind.Latex? && GetBag(v, id).anchor then
      var (v1, h1) := RemovePixbuf(v, id, h);
      (v1.(bags := v1.bags[id := GetBag(v1, id).(restore := true)]), h1)
    else (v, h)
  }

  /** `restore_after_save(bounds)`: a flagged region gets its image back and
      loses the flag; an unflagged region is left alone. */
  function RestoreAfterSave(v: Validator, b: Bounds, doc: Doc, h: Host): (r: (Validator, Host))
    requires GetBag(v, b.id).restore ==> GetBag(v, b.id).pixbuf
    ensures !v.kind.Latex? || !GetBag(v, b.id).restore ==> r == (v, h)
    ensures v.kind.Latex? && GetBag(v, b.id).restore ==>
              GetBag(r.0, b.id) == GetBag(v, b.id).(anchor := true, restore := false) &&
              r.0.invisible == v.invisible + Cells(doc, b.start, b.end)
    ensures forall j :: j != b.id ==> GetBag(r.0, j) == GetBag(v, j)
    ensures r.0.(bags := v.bags, invisible := v.invisible) == v
    ensures r.1 == h
  {
    if v.kind.Latex? && GetBag(v, b.id).restore then
      var (v1, h1) := ShowPixbuf(v, b, doc, h);
      (v1.(bags := v1.bags[b.id := GetBag(v1, b.id).(restore := false)]), h1)
    else (v, h)
  }

  /** Saving and restoring: the saved text never holds the region's image,
      the image comes back exactly when it was there before, the flag is
      cleared again, and the buffer's modified flag is untouched. */
  lemma SaveRoundTrip(v: Validator, b: Bounds, doc: Doc, h: Host)
    requires v.kind.Latex? && !GetBag(v, b.id).restore
    requires GetBag(v, b.id).anchor ==> GetBag(v, b.id).pixbuf
    ensures var (v1, h1) := StoreForSave(v, b.id, h);
            !GetBag(v1, b.id).anchor &&
            var (v2, h2) := RestoreAfterSave(v1, b, doc, h1);
            GetBag(v2, b.id) == GetBag(v, b.id) && h2.modified == h.modified &&
            v2.jobs == v.jobs && v2.active == v.active
  {
  }

  // ---------------------------------------------------------------------
  // Edits of the buffer

  /** A job's region after an insertion: its marks move as a region's do. */
  function JobOnInsert(j: Job, at: Pos, loc: Pos): Job {
    j.(bounds := j.bounds.(start := MoveOnInsert(j.bounds.start, at, loc, false), end := MoveOnInsert(j.bounds.end, at, loc, true)))
  }

  /** What the buffer does to a validator's state over an insertion: its
      tags move with their characters (inserted text is untagged) and so do
      the marks of the regions being rendered. */
  function ShiftOnInsert(v: Validator, at: Pos, loc: Pos): (r: Validator)
    ensures r.kind == v.kind && r.rule == v.rule && r.active == v.active && r.bags == v.bags && r.timer == v.timer
    ensures r.jobs.Keys == v.jobs.Keys && forall id :: id in v.jobs ==> r.jobs[id].bounds.id == v.jobs[id].bounds.id
    ensures forall p :: p in v.invisible && Lt(p, at) ==> p in r.invisible
    ensures Lt(at, loc) ==> forall p :: p in r.invisible + r.visible ==> !InRange(p, at, loc)
  {
    v.(invisible := CellsOnInsert(v.invisible, at, loc), visible := CellsOnInsert(v.visible, at, loc),
       jobs := map id | id in v.jobs :: JobOnInsert(v.jobs[id], at, loc))
  }

  /** A job's region after the text in `[a, b)` is deleted. */
  function JobOnDelete(j: Job, a: Pos, b: Pos): Job {
    j.(bounds := j.bounds.(start := MoveOnDelete(j.bounds.start, a, b), end := MoveOnDelete(j.bounds.end, a, b)))
  }

  /** What the buffer does to a validator's state over a deletion: tagged
      characters inside the range go, the rest move with their text, and
      so do the marks of the regions being rendered. */
  function ShiftOnDelete(v: Validator, a: Pos, b: Pos): (r: Validator)
    ensures r.kind == v.kind && r.rule == v.rule && r.active == v.active && r.bags == v.bags && r.timer == v.timer
    ensures r.jobs.Keys == v.jobs.Keys && forall id :: id in v.jobs ==> r.jobs[id].bounds.id == v.jobs[id].bounds.id
    ensures forall p :: p in v.invisible && Lt(p, a) ==> p in r.invisible
    ensures forall p :: p in v.invisible && Le(b, p) ==> MoveOnDelete(p, a, b) in r.invisible
  {
    v.(invisible := CellsOnDelete(v.invisible, a, b), visible := CellsOnDelete(v.visible, a, b),
       jobs := map id | id in v.jobs :: JobOnDelete(v.jobs[id], a, b))
  }
}
