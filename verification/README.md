# jft: a Dafny model of the gedit plugin's core

jft is a gedit plugin for writing structured notes in plain text. Its core does three things:

- It overlays the text with *regions*: pieces of the text that a validator recognises. Inline math `$…$` is one kind; `{{key: value}}` meta tags are another.
- It keeps those regions right while the text is edited.
- It drives how each region is shown. The markup can be hidden, the rendered image of a formula can be put in place of its source, and the raw text comes back while the cursor is inside a region.

This project models that core as pure Dafny functions over immutable data and proves its properties. It also models the editing helpers of the document helper, the key table that dispatches to them, the LaTeX exporter and the signal registry.

Layout, one module per component:

- `Signals` (signals.dfy): the handler registry that the engine and the document helper inherit. It records, per object and per signal name, the handler ids in the order they were connected.
- `Buffer` (buffer.dfy): positions, document order, `get_slice`, and tagged cells. It also says how a mark moves when text is inserted or deleted; that part is GTK's behaviour, which the engine relies on.
- `Regex` and `Patterns` (regex.dfy, patterns.dfy):
  - a small backtracking matcher, enough for the validators' patterns;
  - `match`, `search` and `finditer`, with Python's leftmost and lazy/greedy semantics;
  - the four validator patterns.
- `RegionIndex` (region_index.dfy): the `_sorted_marks` list, plus `bisect_left`, `bisect_right`, `insort` and `_find_possible_active`.
- `Scheduler` (scheduler.dfy): the dirty-line list `_invalid_lines` and its updates on edits.
- `Edits` (edits.dfy): how the line keys of the index follow an insertion or a deletion. Each update appears twice: as written, and corrected.
- `Validators` (validators.dfy):
  - `Validator`, `ValidatorHide` and `ValidatorLatex`;
  - the hidden/visible tags;
  - the LaTeX render jobs, their processes, temporary file sets and poll timer;
  - the per-region data bag (image, image character, restore flag).
- `Validation` (validation.dfy): the engine. It covers construction, invalidation, the idle re-validation pass, the insert and delete handlers, the cursor handler, stop, and the save hooks.
- `LatexParsers`, `ExportInline`, `ExportLatex` (latex_parsers.dfy, export_inline.dfy, export_latex.dfy):
  - the line parsers of the exporter;
  - the inline rewriting of `_parse_inline`;
  - `filename_ext`;
  - the parser dispatch of `export` and the shape of the document it writes.
- `TagLine`, `DocumentHelper`, `KeyDispatch` (tag_line.dfy, document_helper.dfy, key_dispatch.dfy):
  - `switch_tag` on one line;
  - `guess_indent`, `reindent_list`, `do_indent`, `maybe_new_list_item` and `auto_indent` on lines of text;
  - the key table of `on_key_press_event` and the mode switch.
- `Wrappers` and `Seqs` (wrappers.dfy): `Option`, `NoDup`, `RemoveFirst`, `Repeat`, and counting.

How the model stands in for the running program:

- Python object identity is a numeric id. That covers a region, a validator's index in the engine's list, a process, a temporary file set, and a glib source.
- GTK marks are positions. The text of the buffer is a sequence of lines.
- Where a handler reads the buffer after an edit, the new text and cursor are parameters.
- The date `switch_tag` writes is a parameter, because it comes from the clock.
- A render process's exit code reaches the model as a map from process handles to exit codes (`polls`).

## Model

| member | source | states |
|---|---|---|
| Signals.Connect | plugin/jft/Signals.py:5-17 | the new handler id is appended after the ids already recorded under (object, name); every other object and name is unchanged |
| Signals.DisconnectSignals | plugin/jft/Signals.py:19-28 | `false` and no change exactly when the object is unknown; otherwise every id of every name of the object is handed back and the object is forgotten, others untouched |
| Signals.DisconnectSignal | plugin/jft/Signals.py:30-45 | `false` and no change when the object or the name is unknown; otherwise that name's ids are handed back in order, the name is dropped, and the object goes with its last name |
| Signals.ConnectThenDisconnectSignal | plugin/jft/Signals.py:5-45 | connecting a fresh name and disconnecting it restores the registry exactly and hands back just that id |
| Signals.OperationsKeepWellFormed | plugin/jft/Signals.py:5-45 | no operation leaves a recorded object with no names |
| Signals.ConnectedIdIsDisconnected | plugin/jft/Signals.py:5-28 | every id connected for an object is disconnected when the object is |
| Buffer.SliceOneLine | plugin/jft/Validation.py:38-39 | `get_text` of a region within one line is the substring between its columns |
| Buffer.Cells | plugin/jft/Validators.py:207-209 | the cells a tag applied over [start, end) covers are exactly the document's characters in that range |
| Buffer.MoveOnInsertKeepsOrder | plugin/jft/Validation.py:156 | an insertion keeps a region's left-gravity start mark at or before its right-gravity end mark |
| Buffer.MoveOnDeleteKeepsOrder | plugin/jft/Validation.py:239-259 | a deletion keeps any two marks in order |
| Buffer.CellsOnInsert | plugin/jft/Validators.py:115-125 | tagged cells before an insertion stay tagged; inserted text is untagged |
| Buffer.CellsOnDelete | plugin/jft/Validators.py:115-125 | tagged cells before a deletion stay, cells after it move back with their characters |
| Regex.Search | plugin/jft/Validators.py:48-49 | `search` returns the match at the smallest offset at or after the start, and there is none before it |
| Regex.MatchAt | plugin/jft/Validators.py:36-39 | an anchored match starts where it was asked to and ends inside the text |
| Regex.MatchAtCut | plugin/jft/Validators.py:36-39 | a match found inside a line is also a whole match of the text it covers, which `match_exact` relies on |
| Regex.FindAll | plugin/jft/Validators.py:41-51 | `finditer` returns matches that are each the anchored match at their start, in order and not overlapping; no match starts before the first, between one's resume point and the next, or after the last one's resume point |
| Regex.FindAllComplete | plugin/jft/Validators.py:41-51 | `finditer` misses nothing: wherever the pattern matches, a returned match starts there or holds that offset before its resume point |
| Regex.FindFromGaps | plugin/jft/Validators.py:48-49 | no match starts strictly between two consecutive matches of `finditer` |
| Regex.MatchAtGroupsWithin | plugin/jft/Validators.py:57-69 | every group of a match lies inside the match |
| Regex.MatchAtHasClosedGroups | plugin/jft/Validators.py:57-69 | a match records every group its pattern has, so `m.start(idx)` is defined |
| Patterns.NextDollar | plugin/jft/Validators.py:155-160 | the lazy body of `\$(.*?)\$` stops at the first `$`; no `$` or newline comes before it |
| Patterns.MathLazy | plugin/jft/Validators.py:155-160 | the lazy star of the math pattern stops at the first `$` on the line, or fails when there is none |
| Patterns.MathMatchAt | plugin/jft/Validators.py:155-160 | the math pattern matches at `i` exactly when a `$` is there and another follows on the same line; group 1 is the text between them |
| Patterns.MathExact | plugin/jft/Validators.py:36-39 | `match_exact` for math accepts exactly `$`, a body with no `$` or newline, and `$` |
| RegionIndex.BisectLeft | plugin/jft/Validation.py:178 | on a sorted index the entries before the result have keys below the line and the rest do not |
| RegionIndex.BisectRight | plugin/jft/Validation.py:234 | on a sorted index the entries before the result have keys at most the line and the rest above it |
| RegionIndex.Insort | plugin/jft/Validation.py:159 | `insort` adds exactly the new entry, at the `bisect_right` point, and moves nothing else |
| RegionIndex.InsortSorted | plugin/jft/Validation.py:159 | `insort` keeps the index sorted; the new entry follows every entry with the same key |
| RegionIndex.TakeRun | plugin/jft/Validation.py:182-184 | the scan takes the maximal run of consecutive entries starting on the line |
| RegionIndex.FindPossibleActive | plugin/jft/Validation.py:174-186 | an empty index gives nothing; otherwise the result is the run from the `bisect_left` point of entries starting on the line, ended by one that does not |
| RegionIndex.FindPossibleActiveComplete | plugin/jft/Validation.py:174-186 | on a sorted index whose keys are start lines, the candidates are exactly the regions starting on the line, in index order |
| RegionIndex.FindPossibleActiveDistinct | plugin/jft/Validation.py:174-186 | with distinct ids every candidate is offered once |
| RegionIndex.ShiftFrom | plugin/jft/Validation.py:236-237 | keys from the given position on move by `diff`; entries before it are unchanged. This is the frame that `Edits.InsertKeysKeeps` and `Edits.DeleteKeysKeeps` build on |
| Scheduler.InsertAsc | plugin/jft/Validation.py:222 | adding a line to the ascending dirty list keeps it ascending and duplicate-free, and adds exactly that line |
| Scheduler.Normalise | plugin/jft/Validation.py:222 | `list(set(...))` keeps the same lines, ascending and duplicate-free |
| Scheduler.Range | plugin/jft/Validation.py:222 | `range(lo, hi + 1)` is exactly the lines from lo to hi |
| Scheduler.EditLines | plugin/jft/Validation.py:219-222 | the lines of an edit are the inclusive range between its two endpoints, whichever comes first |
| Scheduler.AddLines | plugin/jft/Validation.py:218-222 | after `_invalidate` the dirty lines are the old ones plus the edit's lines, each once |
| Scheduler.Keep | plugin/jft/Validation.py:247 | the filter keeps exactly the dirty lines outside the open deleted range |
| Scheduler.ShiftDirty | plugin/jft/Validation.py:243-252 | corrected: after a deletion the surviving dirty lines are those outside the range, each moved where its text went, whatever the list order |
| Scheduler.ShiftDirtyAsWrittenWhenAscending | plugin/jft/Validation.py:247-252 | on an ascending list the `bisect_left` update moves every line where `ShiftDirty` does |
| Scheduler.ShiftDirtyAsWrittenMissesLine | plugin/jft/Validation.py:247-252 | the dirty list [9, 2] with lines 3..5 deleted keeps 9 as written, where its text is now on line 7 |
| Scheduler.ShiftDirtyOnInsert | plugin/jft/Validation.py:227-237 | dirty lines below an insertion move down by the inserted lines, the rest stay, and order is kept |
| Scheduler.InsertDirtyAsWritten | plugin/jft/Validation.py:227-228 | as written, an insertion only adds its lines to the dirty list |
| Scheduler.InsertDirty | plugin/jft/Validation.py:227-237 | corrected: the old dirty lines moved with their text, plus the inserted lines, ascending |
| Scheduler.InsertDirtyAsWrittenMissesLine | plugin/jft/Validation.py:227-237 | with dirty line 10 and lines 3..5 inserted, the source marks line 10, where the text that was dirty is now on line 12 |
| Edits.MarksOnInsert | plugin/jft/Validation.py:156 | the buffer moves each region's marks, the start with left and the end with right gravity, and leaves the keys alone. `Edits.InsertKeysKeeps` proves that rekeying after it keeps the index invariant |
| Edits.InsertLine | plugin/jft/Validation.py:231-237 | a start line before the insertion stays; one after it moves by the lines inserted; one on it stays or moves to the last inserted line |
| Edits.InsertKeysAsWritten | plugin/jft/Validation.py:231-237 | as written, on a sorted index only keys above `line + 1` move down by the lines inserted, whatever line the region now starts on; marks are untouched |
| Edits.InsertKeysKeeps | plugin/jft/Validation.py:231-237 | corrected: after an insertion the index is sorted, keys are start lines, ids are distinct, and it holds exactly the moved regions |
| Edits.InsertKeysMembers | plugin/jft/Validation.py:231-237 | corrected: a region is in the new index exactly when it is an old one moved and rekeyed |
| Edits.InsertKeysAsWrittenMissesNextLine | plugin/jft/Validation.py:234 | a region on the line after the insertion point keeps its key as written, so `_find_possible_active` no longer finds it |
| Edits.InsertKeysAsWrittenMissesSameLine | plugin/jft/Validation.py:231-237 | a region on the insertion line pushed to the next line keeps its old key as written and is missed |
| Edits.MarksOnDelete | plugin/jft/Validation.py:243 | the buffer moves every mark on a deletion and leaves the keys alone. `Edits.DeleteKeysKeeps` proves that rekeying after it keeps the index invariant |
| Edits.DeleteLine | plugin/jft/Validation.py:243-257 | a deletion moves every mark to the line `KeyAfterDelete` names for its old line |
| Edits.KeyAfterDeleteMonotone | plugin/jft/Validation.py:254-257 | moving lines by a deletion keeps them in order |
| Edits.DeleteKeysAsWritten | plugin/jft/Validation.py:254-257 | as written, on a sorted index only keys at or after the last deleted line move up by the deleted lines; marks are untouched |
| Edits.DeleteKeys | plugin/jft/Validation.py:254-257 | corrected: every key goes where its line went; regions inside the deleted lines join its first line |
| Edits.DeleteKeysKeeps | plugin/jft/Validation.py:254-257 | corrected: a deletion keeps the index sorted with keys equal to start lines, each position holding the same region moved |
| Edits.DeleteKeysAsWrittenUnsorts | plugin/jft/Validation.py:254-257 | as written, a region starting inside the deleted lines keeps its key while a later one moves up past it: keys [4, 2] |
| Validators.New | plugin/jft/Validators.py:14-23 | a new validator has no active regions, no render jobs and no timer |
| Validators.BuiltinsWellFormed | plugin/jft/Validators.py:140-160 | the Meta, Emphasize, Strong and Latex validators have a rule that closes every group they un-hide |
| Validators.LatexMatchExact | plugin/jft/Validators.py:36-39 | the LaTeX validator's `match_exact` accepts exactly `$`, a body with no `$` or newline, and `$` |
| Validators.MatchLine | plugin/jft/Validators.py:41-51 | `match` returns nothing without a rule; otherwise ordered, non-overlapping anchored matches inside the line, and no match of the rule starts in a gap `finditer` skips over |
| Validators.MatchLineComplete | plugin/jft/Validators.py:41-51 | wherever the rule matches on the line, a match `match` returns starts there or holds that offset |
| Validators.MatchedTextIsExact | plugin/jft/Validators.py:36-51 | the text of every match `match` returns is accepted by `match_exact`, so a new region is valid |
| Validators.Add | plugin/jft/Validators.py:32-34 | `add` records the region once: adding a recorded region changes nothing |
| Validators.Remove | plugin/jft/Validators.py:53-55 | `remove` invalidates the region and takes one occurrence of it out of `active` |
| Validators.ItersFor | plugin/jft/Validators.py:57-69 | the span of group `idx`, measured from the region start with the match start as origin, on the region's line |
| Validators.HideValidate | plugin/jft/Validators.py:115-119 | `validate` tags the whole match invisible and each visible group visible; nothing else changes |
| Validators.HideInvalidate | plugin/jft/Validators.py:121-125 | `invalidate` removes both tags over the region and nothing outside it |
| Validators.HideValidateThenInvalidate | plugin/jft/Validators.py:115-125 | validating an untagged region and then invalidating it gives back the validator as it was |
| Validators.HideValidateHides | plugin/jft/Validators.py:115-119 | after `validate` a cell of the match is hidden exactly when no visible group covers it |
| Validators.StopRunning | plugin/jft/Validators.py:178-189 | the region's job goes with its process and files; the timer is removed only when no job remains; without a job nothing changes |
| Validators.StopRunningKeepsInv | plugin/jft/Validators.py:178-189 | stopping a job keeps the render bookkeeping consistent |
| Validators.QuietEdit | plugin/jft/Validators.py:194-203 | an edit of the image character leaves the buffer's modified flag as it was |
| Validators.RemovePixbuf | plugin/jft/Validators.py:191-205 | the region loses its image character; other regions' data is unchanged |
| Validators.ShowPixbuf | plugin/jft/Validators.py:207-229 | the region's text is hidden and its image character recorded, without marking the buffer modified |
| Validators.ProcessDone | plugin/jft/Validators.py:235-243 | on exit code 0 the image is recorded and shown; the temporary files go away whatever the code |
| Validators.CheckRunningProcs | plugin/jft/Validators.py:245-260 | finished jobs are dropped and their files removed, successful ones show their image; the timer keeps running exactly while jobs remain |
| Validators.CheckRunningProcsKeepsInv | plugin/jft/Validators.py:245-260 | polling keeps the render bookkeeping consistent |
| Validators.CheckOneFinished | plugin/jft/Validators.py:245-254 | with one finished job, polling does what `_process_done` does for it |
| Validators.GenerateLatex | plugin/jft/Validators.py:262-301 | a render job for the region is filed with fresh handles; a poll timer exists afterwards and is created only if none was running |
| Validators.GenerateLatexReplaces | plugin/jft/Validators.py:262-301 | a new render replaces the old one: the superseded process and files are gone and the bookkeeping stays consistent |
| Validators.GenerateLatexKeepsInv | plugin/jft/Validators.py:262-301 | every job has its own process and file set, all older than the next fresh handle, and a timer runs while jobs remain |
| Validators.GenerateLatexDropsOld | plugin/jft/Validators.py:262-263 | the process and files of a render that is superseded are no longer tracked |
| Validators.AddJobKeepsInv | plugin/jft/Validators.py:298-301 | filing a job with fresh handles while a timer runs keeps the bookkeeping consistent |
| Validators.DropJobsHandles | plugin/jft/Validators.py:178-189 | dropping jobs releases exactly their processes and file sets |
| Validators.AddJobHandles | plugin/jft/Validators.py:296-301 | filing a job with fresh handles adds exactly its process and file set |
| Validators.Validate | plugin/jft/Validators.py:115-119 | hiding validators hide the whole match; the LaTeX validator starts a render; the active list and the modified flag are untouched |
| Validators.Invalidate | plugin/jft/Validators.py:306-310 | the region is left untagged; the LaTeX validator also stops its render and removes its image |
| Validators.Enter | plugin/jft/Validators.py:127-129 | the raw text is revealed; the LaTeX validator also stops its render and removes its image |
| Validators.Exit | plugin/jft/Validators.py:131-138 | the region's current text is matched again and validated only if the rule still matches at its start |
| Validators.StoreForSave | plugin/jft/Validators.py:320-323 | a shown image is removed and the region flagged for restoring; without one nothing happens |
| Validators.RestoreAfterSave | plugin/jft/Validators.py:325-328 | a flagged region gets its image back and loses the flag; others are untouched |
| Validators.SaveRoundTrip | plugin/jft/Validators.py:320-328 | store then restore gives back the region's data, with the modified flag, jobs and active list unchanged |
| Validators.ShiftOnInsert | plugin/jft/Validators.py:115-125 | on an insertion, tags before it stay, inserted text is untagged, and every job keeps its region |
| Validators.ShiftOnDelete | plugin/jft/Validators.py:115-125 | on a deletion, tags before it stay, tags after it move back, and every job keeps its region |
| Validation.Invalidate | plugin/jft/Validation.py:218-225 | the dirty lines gain the edit's lines; a pass is scheduled only when none is pending |
| Validation.OnePendingPass | plugin/jft/Validation.py:218-225 | any run of invalidations leaves exactly one pass pending, the old one if there was one, and every invalidated line dirty |
| Validation.DirtyStays | plugin/jft/Validation.py:218-225 | a dirty line stays dirty until a pass runs |
| Validation.InitialSignals | plugin/jft/Validation.py:85-89 | the engine connects delete-range (before and after), cursor-moved, save and saved on the buffer |
| Validation.New | plugin/jft/Validation.py:78-99 | a new engine has no regions, the Meta and LaTeX validators, every line dirty, one pass pending, and its signals and insert hook connected |
| Validation.RemoveId | plugin/jft/Validation.py:203 | `remove` with `compare_direct` set takes out exactly that region and keeps the others in order |
| Validation.RemoveIdKeeps | plugin/jft/Validation.py:203 | removing a region keeps the index sorted, keys on start lines and ids distinct |
| Validation.FindUnique | plugin/jft/Validation.py:203 | with distinct ids, looking a region up by its id finds that region |
| Validation.AddValidate | plugin/jft/Validation.py:148-169 | a match already marked at both ends by its validator is left alone; otherwise a region is inserted, registered, validated, and entered if it holds the cursor |
| Validation.AddNew | plugin/jft/Validation.py:156-169 | a new region goes into the index with the next id and into its validator; it is active exactly when it holds the cursor |
| Validation.Register | plugin/jft/Validation.py:156-162 | the new region is inserted in the index, recorded by its validator, and valid |
| Validation.EnterRegion | plugin/jft/Validation.py:167-169 | the region joins the active list and its validator's `enter` runs |
| Validation.AddValidateKeepsInv | plugin/jft/Validation.py:148-169 | `_add_validate` keeps the engine invariant, loses no region, and adds only valid regions on the match's line |
| Validation.AddAllGrows | plugin/jft/Validation.py:206-213 | the adding loops keep the invariant, lose no region, and add only valid regions on dirty lines |
| Validation.AddValidateCovers | plugin/jft/Validation.py:148-169 | after `_add_validate` the validator has marks at both ends of the match |
| Validation.AddAllCovers | plugin/jft/Validation.py:206-213 | after the adding loops every match `match` returns for every validator on a dirty line, which is every `finditer` match (`MatchLineComplete`), is covered |
| Validation.RemoveRegion | plugin/jft/Validation.py:196-204 | a stale region leaves the active list and the index and is reverted by its validator |
| Validation.RemoveRegionKeepsInv | plugin/jft/Validation.py:196-204 | removing a region keeps the invariant and leaves every other region in place |
| Validation.DropInvalidShrinks | plugin/jft/Validation.py:196-204 | checking the candidates of a line removes exactly the invalid ones |
| Validation.CandidatesOfLine | plugin/jft/Validation.py:174-186 | the candidates of a dirty line are exactly the regions starting on it, once each |
| Validation.DropStaleShrinks | plugin/jft/Validation.py:191-204 | the first loop of the pass removes exactly the regions on dirty lines that no longer match |
| Validation.Pass | plugin/jft/Validation.py:188-216 | the pass empties the dirty list, clears the pending id, and changes no rule, text, cursor or signal |
| Validation.PassSound | plugin/jft/Validation.py:188-216 | after a pass the invariant holds; every region on a dirty line is valid; an old region survives exactly when it still matches; new regions are on dirty lines |
| Validation.PassKept | plugin/jft/Validation.py:188-204 | an old region survives the pass exactly when its validator exists and, on a dirty line, its text still matches |
| Validation.PassCovers | plugin/jft/Validation.py:188-216 | after a pass every match any validator's `match` returns on a dirty line has that validator's marks at both ends |
| Validation.PassCoversEvery | plugin/jft/Validation.py:188-216 | after a pass, wherever a validator's rule matches on a dirty line, that validator has marks at both ends of a returned match starting at or holding that offset |
| Validation.BufferInsert | plugin/jft/Validation.py:227 | before the hook runs, the buffer has moved the marks and tags; keys are untouched |
| Validation.OnInsertTextAsWritten | plugin/jft/Validation.py:227-237 | as written, the dirty lines and keys are updated as `InsertDirtyAsWritten` and `InsertKeysAsWritten` say |
| Validation.OnInsertText | plugin/jft/Validation.py:227-237 | corrected: dirty lines and keys follow the text, and a pass stays pending |
| Validation.InsertTextIndex | plugin/jft/Validation.py:227-237 | after an insertion the index holds the old regions moved and rekeyed, sorted and without repeats |
| Validation.InsertTextKeepsInv | plugin/jft/Validation.py:227-237 | an insertion keeps the engine invariant |
| Validation.InsertTextFields | plugin/jft/Validation.py:227-237 | an insertion leaves the active list and the next id alone, keeps a pass pending and keeps the dirty list ascending |
| Validation.InsertTextDirty | plugin/jft/Validation.py:227-237 | after an insertion the dirty lines are the old ones moved with their text plus the inserted lines |
| Validation.InsertHookFields | plugin/jft/Validation.py:227-237 | the insert hook changes only the dirty lines, the pending pass and the index |
| Validation.OnDeleteRange | plugin/jft/Validation.py:239-241 | the deletion's two lines are remembered, lower first |
| Validation.BufferDelete | plugin/jft/Validation.py:243 | before the handler runs, the buffer has moved the marks and tags; keys are untouched |
| Validation.OnDeleteRangeAfterAsWritten | plugin/jft/Validation.py:243-259 | as written, keys from the `bisect_left` point of the last deleted line move up |
| Validation.OnDeleteRangeAfter | plugin/jft/Validation.py:243-259 | corrected: keys follow their lines; the dirty lines are the deletion line plus the survivors moved; a pass stays pending |
| Validation.DeleteTextKeepsInv | plugin/jft/Validation.py:239-259 | a deletion keeps the invariant, each region moved and rekeyed in place, and the dirty lines as `ShiftDirty` says plus the deletion line |
| Validation.ExitLoopSpec | plugin/jft/Validation.py:266-275 | the exit loop keeps exactly the active regions that still contain the cursor and calls `exit` on each of the others |
| Validation.ExitLoopExits | plugin/jft/Validation.py:266-275 | the exit loop calls only `exit` hooks |
| Validation.EnterLoopActive | plugin/jft/Validation.py:277-284 | the enter loop keeps active ids distinct and adds exactly the regions it enters |
| Validation.EnterLoopHooks | plugin/jft/Validation.py:277-284 | `enter` is called only for a candidate holding the cursor whose line key no active region has |
| Validation.EnterLoopKeys | plugin/jft/Validation.py:277-284 | after the enter loop the line key of every candidate holding the cursor is active, and no active key is lost |
| Validation.CursorMovedKeeps | plugin/jft/Validation.py:261-286 | the cursor handler keeps the invariant, every active region contains the cursor, the exited regions are those that no longer did, and the cursor's line becomes dirty exactly when an entered region showed its image |
| Validation.CursorMovedFrame | plugin/jft/Validation.py:261-286 | the cursor handler changes only the active list, the validators' presentation, and the dirty lines and pending pass that deleting an image character touches |
| Validation.EnterOne | plugin/jft/Validators.py:312-318 | entering a region that shows its image deletes the image character, and the engine's delete handlers mark its line dirty with a pass pending; otherwise the dirty lines and the pending pass stay |
| Validation.EnterLoopShape | plugin/jft/Validation.py:277-284 | the enter loop over one line's regions enters none and changes nothing, or enters exactly one |
| Validation.CursorMovedDirty | plugin/jft/Validation.py:261-286 | the dirty lines after the cursor handler are the old ones plus the cursor's line exactly when an entered region showed its image; then a pass is pending; otherwise the pending pass is untouched |
| Validation.CursorMovedActive | plugin/jft/Validation.py:261-286 | after the cursor handler the active regions are distinct regions of the index containing the cursor |
| Validation.CursorMovedExits | plugin/jft/Validation.py:266-275 | `exit` is called exactly for the previously active regions that no longer contain the cursor |
| Validation.CursorMovedEnters | plugin/jft/Validation.py:277-284 | every entered region starts on the cursor's line, contains it, and was not active |
| Validation.CursorMovedEntersOne | plugin/jft/Validation.py:277-284 | at most one region is entered: the line-key test refuses later regions of the line |
| Validation.CursorMovedComplete | plugin/jft/Validation.py:277-284 | when some region of the cursor's line contains the cursor, a region keyed on that line is active afterwards |
| Validation.ActiveKeys | plugin/jft/Validation.py:105-106 | the keys of the active regions, position by position |
| Validation.RemoveByKey | plugin/jft/Validation.py:105-106 | `remove` without `compare_direct` takes out the first active region with the same key |
| Validation.StopRegion | plugin/jft/Validation.py:63-67 | `SortedMark.stop` reverts the region and removes it from its validator only |
| Validation.DropAll | plugin/jft/Validation.py:101-109 | the shutdown loop empties the index and reverts every region |
| Validation.DropAllEmptiesActive | plugin/jft/Validation.py:101-109 | the shutdown loop also empties the active list |
| Validation.InvalidateAll | plugin/jft/Validation.py:101-109 | `_invalidate_all` leaves no region in the index or the active list |
| Validation.Stop | plugin/jft/Validation.py:111-119 | `stop` cancels the pending pass, disconnects the buffer and the insert hook, and removes every region |
| Validation.StoreAllBags | plugin/jft/Validation.py:291-293 | a region's data is stored exactly when the loop visits it; the rest is unchanged |
| Validation.StoreOne | plugin/jft/Validators.py:191-205 | storing a region that shows its image deletes the image character, so its line becomes dirty and a pass is pending; any other region's data is untouched |
| Validation.OnSave | plugin/jft/Validation.py:299-300 | on save every region is stored, so no LaTeX region has an image in the saved text; only the validators, handles, dirty lines and pending pass change |
| Validation.StoreAllDirty | plugin/jft/Validation.py:291-293 | the store loop over distinct regions marks dirty exactly the lines of the regions that showed their image, queuing a pass then, and otherwise leaves the dirty lines and the pending pass alone |
| Validation.OnSaveDirty | plugin/jft/Validation.py:299-300 | on save the lines of the regions that showed an image become dirty, a pass is pending when one did, and the engine invariant holds |
| Validation.RestoreAllBags | plugin/jft/Validation.py:295-297 | a region's data is restored exactly when the loop visits it; the rest is unchanged |
| Validation.OnSaved | plugin/jft/Validation.py:302-303 | after saving every flagged LaTeX region has its image back and no flag |
| Validation.SaveRestoresImages | plugin/jft/Validation.py:291-303 | save then saved gives every region its data back |
| LatexParsers.ParseComment | plugin/jft/ExportLatex.py:21-33 | a line whose first non-blank is `#` becomes the same line with that `#` replaced by `%`; other lines are declined |
| LatexParsers.CommentLine | plugin/jft/ExportLatex.py:27-33 | blanks, `#` and text become blanks, `%` and text |
| LatexParsers.ParseMath | plugin/jft/ExportLatex.py:35-47 | a line that is only blanks around one `$…$` becomes a display-math block; others are declined |
| LatexParsers.MathLine | plugin/jft/ExportLatex.py:41-47 | a `$`-free body between dollars is displayed |
| LatexParsers.PushLevel | plugin/jft/ExportLatex.py:58-65 | opens one itemize per level up to the target, outermost first |
| LatexParsers.PopLevel | plugin/jft/ExportLatex.py:67-74 | closes one itemize per level down to the target, innermost first |
| LatexParsers.MatchList | plugin/jft/ExportLatex.py:53 | a list line is blanks, a run of stars, blanks and the item text |
| LatexParsers.ParseList | plugin/jft/ExportLatex.py:76-88 | a list line opens or closes levels to its star count and adds `\item`; other lines are declined |
| LatexParsers.ListDeeper | plugin/jft/ExportLatex.py:76-88 | an item one level deeper opens exactly one itemize |
| LatexParsers.ListSame | plugin/jft/ExportLatex.py:76-88 | an item at the current level opens and closes nothing |
| LatexParsers.EndList | plugin/jft/ExportLatex.py:90-98 | a line indented by as many tabs as the level keeps the list; any other closes every level |
| LatexParsers.LastList | plugin/jft/ExportLatex.py:100-101 | `last` closes every open level |
| LatexParsers.LevelToName | plugin/jft/ExportLatex.py:135-141 | level 2 is a subsection, 3 a subsubsection, anything else a section |
| LatexParsers.ParseHeader | plugin/jft/ExportLatex.py:112-133 | a `%` line is consumed; a level-1 title tag names the document, any other adds its text to the header |
| LatexParsers.EndHeader | plugin/jft/ExportLatex.py:143-150 | before any header `end` is `True`; otherwise it emits the section command and clears the text |
| LatexParsers.HeadersJoin | plugin/jft/ExportLatex.py:112-150 | two `%%` lines in a row make one subsection holding both texts |
| LatexParsers.HeaderLine | plugin/jft/ExportLatex.py:112-133 | a `%% x` line adds `x` to a level-2 header |
| LatexParsers.TitleLine | plugin/jft/ExportLatex.py:121-123 | a `% {{title: …}}` line sets the title and leaves the header alone |
| LatexParsers.TitleTag | plugin/jft/ExportLatex.py:108 | the title pattern reads back the title text of a tag built from its pieces |
| ExportLatex.ReplacesExtension | plugin/jft/ExportLatex.py:167-175 | a name with an extension has it replaced, or dropped for no extension |
| ExportLatex.AppendsExtension | plugin/jft/ExportLatex.py:176-177 | a name without `.` gets the extension appended |
| ExportLatex.PdfOfTex | plugin/jft/ExportLatex.py:179-183 | the PDF name of the TeX file is the PDF name of the document |
| ExportLatex.Split | plugin/jft/ExportLatex.py:261 | `split` yields at least one piece and no piece holds the separator |
| ExportLatex.JoinSplit | plugin/jft/ExportLatex.py:261 | joining the split pieces gives back the document |
| ExportLatex.SplitJoin | plugin/jft/ExportLatex.py:261 | splitting joined separator-free pieces gives back the pieces |
| ExportLatex.Parse | plugin/jft/ExportLatex.py:264-265 | a parser that declines changes nothing; the base parser echoes the line; each parser touches only its own state |
| ExportLatex.End | plugin/jft/ExportLatex.py:269-274 | only the list parser can decline to end, exactly when the indentation matches its level |
| ExportLatex.Append | plugin/jft/ExportLatex.py:242-246 | strings are appended and `True` adds nothing; output only grows |
| ExportLatex.ChooseFrom | plugin/jft/ExportLatex.py:264-281 | the chosen parser is one of the parsers, with its own reply |
| ExportLatex.ChooseFromAccepts | plugin/jft/ExportLatex.py:264-281 | the chosen parser accepts the line, since the base parser accepts every line |
| ExportLatex.ChooseFromSkips | plugin/jft/ExportLatex.py:264-281 | every parser before the chosen one declined |
| ExportLatex.EndsDrops | plugin/jft/ExportLatex.py:268-274 | ending the listed parsers drops all but the list parser |
| ExportLatex.EndsList | plugin/jft/ExportLatex.py:268-274 | the list parser stays listed exactly when the line is indented by its level |
| ExportLatex.Ends | plugin/jft/ExportLatex.py:268-274 | ending the previous parsers keeps the title and citations, only adds output and only drops parsers |
| ExportLatex.Step | plugin/jft/ExportLatex.py:261-281 | one line raises the citation flag if it cites and only adds output |
| ExportLatex.StepInv | plugin/jft/ExportLatex.py:261-281 | one line keeps the dispatch invariant: listed parsers distinct and open lists and headers listed |
| ExportLatex.Run | plugin/jft/ExportLatex.py:261-281 | citations are on exactly when some line cites; output only grows |
| ExportLatex.RunInv | plugin/jft/ExportLatex.py:261-281 | the dispatch invariant holds over any run of lines |
| ExportLatex.Finish | plugin/jft/ExportLatex.py:283-284 | the final `last` calls add one output line closing every open list level; header, title and citations stay |
| ExportLatex.RenderShape | plugin/jft/ExportLatex.py:286-309 | the document starts with the packages, loads apacite exactly when citations were seen, and ends with `\end{document}` |
| ExportLatex.ExportCites | plugin/jft/ExportLatex.py:248-309 | the exported document loads apacite exactly when some line holds a citation |
| ExportLatex.ExportCloses | plugin/jft/ExportLatex.py:248-285 | the last output line closes the levels still open |
| ExportInline.FindFrom | plugin/jft/ExportLatex.py:207 | `find` returns the first occurrence at or after the start |
| ExportInline.CiteSearch | plugin/jft/ExportLatex.py:161 | the cite pattern's search returns the leftmost `{{cite(key):…}}` with both lazy parts shortest, or none exactly when none exists |
| ExportInline.Mark | plugin/jft/ExportLatex.py:202 | a cite key's underscores become the sentinel, position by position |
| ExportInline.Unmark | plugin/jft/ExportLatex.py:240 | sentinels become underscores again, position by position |
| ExportInline.UnmarkMark | plugin/jft/ExportLatex.py:202-240 | unmarking a marked key gives it back |
| ExportInline.CiteLoop | plugin/jft/ExportLatex.py:205-212 | the cite rewriter raises the flag exactly when the text cites, and leaves no citation behind |
| ExportInline.CommentStepHashes | plugin/jft/ExportLatex.py:162 | each comment rewrite removes one `#` |
| ExportInline.CommentLoopResult | plugin/jft/ExportLatex.py:162 | the comment rewriter puts a `%` per `#` before the first non-blank and drops the `#` signs, when a `#` follows it |
| ExportInline.EmphPair | plugin/jft/ExportLatex.py:163 | `pre'word'post` becomes `pre\textit{word}` and the rewritten `post` |
| ExportInline.EmphQuoted | plugin/jft/ExportLatex.py:163 | a leading quoted word is found and put in `\textit{…}` |
| ExportInline.ReplaceAll | plugin/jft/ExportLatex.py:222-223 | `replace` leaves text without the pattern unchanged |
| ExportInline.EscapeNothing | plugin/jft/ExportLatex.py:214-223 | text without `_`, `<` or `>` needs no escaping |
| ExportInline.EscapeOnlyUnderscores | plugin/jft/ExportLatex.py:214-223 | on text without `<` or `>` escaping puts a backslash before every underscore |
| ExportInline.EscapeGeq | plugin/jft/ExportLatex.py:214-223 | corrected order: `>=` between plain texts becomes `$\geq$` |
| ExportInline.GeqAsWritten | plugin/jft/ExportLatex.py:214-223 | in the dictionary's iteration order, `>=` between plain texts becomes `$>$=` |
| ExportInline.NoGeq | plugin/jft/ExportLatex.py:214-223 | once `>` has been replaced no `>=` is left for its own replacement to find |
| ExportInline.GeqExample | plugin/jft/ExportLatex.py:214-223 | `>=` alone: `$>$=` as written, `$\geq$` corrected |
| ExportInline.ParseInlineReal | plugin/jft/ExportLatex.py:204-225 | corrected: the rewriting of a math-free part, escaping in the corrected order, raises the citation flag exactly when it cites |
| ExportInline.MathSearch | plugin/jft/ExportLatex.py:158 | the math search finds the first `$` and the next one, or there are no two dollars |
| ExportInline.ParseInlineNoMath | plugin/jft/ExportLatex.py:227-240 | a line without a math segment is rewritten whole and unmarked |
| ExportInline.ParseInlineSplit | plugin/jft/ExportLatex.py:227-240 | a math segment is copied untouched; only the text around it is rewritten |
| ExportInline.SegmentLoopSplit | plugin/jft/ExportLatex.py:230-239 | the loop splits at the first math segment, whatever the rewriter |
| TagLine.TagWordOf | plugin/jft/DocumentHelper.py:29 | text starting with a tag word and a colon is read as that tag |
| TagLine.Word | plugin/jft/DocumentHelper.py:29 | the four tag words `DONE`, `CHECK`, `TODO`, `DEADLINE` are non-empty and made of capital letters only, so the colon after one ends it |
| TagLine.WordsPrefixFree | plugin/jft/DocumentHelper.py:29 | no tag word is a prefix of another, so the word before a colon names one tag |
| TagLine.TagWord | plugin/jft/DocumentHelper.py:29 | a tag is read only from its word followed by a colon |
| TagLine.HeadEnd | plugin/jft/DocumentHelper.py:29 | the tag goes after the leading blanks and list bullet, at a non-blank character or the end |
| TagLine.TodayReads | plugin/jft/DocumentHelper.py:29-133 | the date DONE writes is one the tag pattern reads back |
| TagLine.DateLenShape | plugin/jft/DocumentHelper.py:29 | the date found is a date with no `)` inside; none is found where there is no such prefix |
| TagLine.TagLen | plugin/jft/DocumentHelper.py:111-118 | the tag span after the head lies in the line and is empty without a tag |
| TagLine.SwitchSets | plugin/jft/DocumentHelper.py:104-138 | switching to a tag the line did not carry leaves the line carrying it |
| TagLine.SwitchClears | plugin/jft/DocumentHelper.py:104-138 | switching to the tag a line carries removes it, joining head and rest |
| TagLine.SwitchReplaces | plugin/jft/DocumentHelper.py:104-138 | switching to another tag replaces the old one by the new stamp |
| TagLine.SwitchToggles | plugin/jft/DocumentHelper.py:104-138 | switching twice to an absent tag gives back the line |
| TagLine.StampOnce | plugin/jft/DocumentHelper.py:122-135 | a stamp after the head is read back as one tag of its own length |
| DocumentHelper.Width | plugin/jft/DocumentHelper.py:143-146 | the indent width, or the tab width when it is -1, is positive |
| DocumentHelper.GuessIndent | plugin/jft/DocumentHelper.py:140-151 | the unit follows the view setting, and the depth is between 0 and the indentation's length |
| DocumentHelper.GuessRepeat | plugin/jft/DocumentHelper.py:140-151 | `n` units read back as depth `n` |
| DocumentHelper.GuessSpaces | plugin/jft/DocumentHelper.py:143-151 | with spaces, `n` indent widths of spaces give depth `n` |
| DocumentHelper.GuessTabs | plugin/jft/DocumentHelper.py:143-151 | with tabs, `n` tabs give depth `n` |
| DocumentHelper.ConformsShape | plugin/jft/DocumentHelper.py:193 | a conforming list line is its item prefix followed by its body |
| DocumentHelper.ItemConforms | plugin/jft/DocumentHelper.py:153-155 | an item prefix and any body form a conforming line of that depth and body |
| DocumentHelper.Reindent | plugin/jft/DocumentHelper.py:153-155 | a new depth of one or more gives a conforming line of that depth with the same body; otherwise only the body remains |
| DocumentHelper.DoIndent | plugin/jft/DocumentHelper.py:157-221 | corrected: no edit exactly when no line is a list line; plain lines stay; list lines move one level, or are normalised when some line does not conform |
| DocumentHelper.IndentUndo | plugin/jft/DocumentHelper.py:157-221 | Tab then Shift-Tab gives back a conforming selection |
| DocumentHelper.IndentOnce | plugin/jft/DocumentHelper.py:157-221 | after Tab the list lines are the same lines one level deeper and still conform |
| DocumentHelper.DoIndentAsWritten | plugin/jft/DocumentHelper.py:176-212 | as written, a selection mixing list and plain lines raises after rewriting as many lines as there are list lines; otherwise the edit is `DoIndent`'s |
| DocumentHelper.ListCountBounds | plugin/jft/DocumentHelper.py:176-196 | the number of list lines, the length of `indent_info`, is the selection's length exactly when every line is a list line and 0 exactly when none is |
| DocumentHelper.MixedSelectionRaises | plugin/jft/DocumentHelper.py:176-212 | `["\t* a", "b"]` raises as written after rewriting one line; corrected, it gives `["\t\t** a", "b"]` |
| DocumentHelper.MixedPair | plugin/jft/DocumentHelper.py:176-212 | any conforming list line followed by a plain line raises as written after rewriting one line; corrected, only the list line moves |
| DocumentHelper.Normal | plugin/jft/DocumentHelper.py:259-265 | the reindented line conforms at the same depth and body, and a conforming line is kept |
| DocumentHelper.CursorAfter | plugin/jft/DocumentHelper.py:259-272 | the cursor lands in the normal line, and stays where it was on a conforming line |
| DocumentHelper.LastListLine | plugin/jft/DocumentHelper.py:227-231 | finds the nearest list line above, or none exactly when there is none |
| DocumentHelper.Bullet | plugin/jft/DocumentHelper.py:233 | a list line is its bullet (`group(0)`) followed by its body |
| DocumentHelper.MaybeNewListItem | plugin/jft/DocumentHelper.py:223-239 | with a list line above, a newline and its bullet are inserted at the cursor; with none, nothing |
| DocumentHelper.NewItemCopies | plugin/jft/DocumentHelper.py:233 | the new line copies the leading blanks and stars of the list line above |
| DocumentHelper.AutoIndent | plugin/jft/DocumentHelper.py:241-276 | corrected: a list line is normalised and the next item inserted at the cursor; a plain line with Control copies the list above |
| DocumentHelper.EnterContinuesList | plugin/jft/DocumentHelper.py:241-276 | Enter on a list line starts a conforming item of the same depth on the next line |
| DocumentHelper.AutoIndentAsWritten | plugin/jft/DocumentHelper.py:259-272 | as written, agrees with `AutoIndent` whenever the line needs no reindenting |
| DocumentHelper.CursorExampleAsWritten | plugin/jft/DocumentHelper.py:259-272 | `"  * a"` with the cursor at 5 and four-space units gives `"  * a    *\n    * "` as written |
| DocumentHelper.CursorExampleFixed | plugin/jft/DocumentHelper.py:259-272 | corrected, the same input gives `"    * a\n    * "` |
| DocumentHelper.AutoIndentFromCursor | plugin/jft/DocumentHelper.py:259-272 | both outcomes side by side |
| KeyDispatch.FirstAccepting | plugin/jft/DocumentHelper.py:305-307 | the first row that accepts the key, with every earlier row declining; none when no row accepts |
| KeyDispatch.FirstIs | plugin/jft/DocumentHelper.py:305-307 | an accepting row with only declining rows before it is the one chosen |
| KeyDispatch.Run | plugin/jft/DocumentHelper.py:278-300 | tag actions stop the key and leave the mode; Control-J toggles the mode; Escape leaves it |
| KeyDispatch.Indent | plugin/jft/DocumentHelper.py:293-297 | corrected (runs `DocumentHelper.DoIndent`): an indent action stops the key exactly when the selection has a list line |
| KeyDispatch.KeyPress | plugin/jft/DocumentHelper.py:302-309 | corrected for Tab, Shift-Tab and Enter, which run the corrected helpers: the first accepting row runs; with none the key passes with no effect |
| KeyDispatch.SwitchModeToggles | plugin/jft/DocumentHelper.py:98-102 | Control-J toggles the mode in either state; twice gives it back |
| KeyDispatch.TagKeys | plugin/jft/DocumentHelper.py:62-66 | each tag's Control key switches that tag on the cursor line and leaves the mode; outside the mode it does nothing |
| KeyDispatch.EscapeLeaves | plugin/jft/DocumentHelper.py:67 | Escape leaves the mode and lets the key through |
| KeyDispatch.TabIndents | plugin/jft/DocumentHelper.py:68-69 | corrected (runs `DocumentHelper.DoIndent`): Tab indents one level and Shift-Tab outdents one |
| KeyDispatch.TabUndo | plugin/jft/DocumentHelper.py:68-69 | corrected (runs `DocumentHelper.DoIndent`): Tab then Shift-Tab on a conforming selection gives it back |
| KeyDispatch.EnterAutoIndents | plugin/jft/DocumentHelper.py:70-71 | corrected: Enter and Control-Enter run the corrected `DocumentHelper.AutoIndent`, Control choosing blank bullets |
| KeyDispatch.LockIgnored | plugin/jft/DocumentHelper.py:303 | the LOCK bit alone does not change the outcome for a given key value |
| KeyDispatch.OtherKeys | plugin/jft/DocumentHelper.py:302-309 | a key no row names is never handled |

## Left out

- Processes, files and the toolkit. The temporary files, `latex`/`dvipng`, `os.kill`, pixbuf loading, the template text, the font size and DPI, and colour parsing are out. A render is a job with fresh handles, and its outcome is an exit code in `polls`.
- glib main-loop sources. `idle_add`, `timeout_add` and `source_remove` are handles and a set of queued handles. The callbacks run when the caller applies `Pass`, `CursorMoved` or `CheckRunningProcs`.
- The GTK buffer is not part of this model. It is stood in for by what the engine relies on: how marks and tags move on edits (`Buffer`), and `get_slice`. Child anchors are a flag in the region's bag. `_show_pixbuf` moving the region's start mark `bounds.start` past the image character is not modelled.
- `Validator.stop` and `ValidatorHide.stop`, because `Validator.stop` iterates `self._active`, which does not exist, and nothing calls either.
- `mouse_enter`, `mouse_exit` and `update`, because they do nothing.
- `get_foreground_color`, because it is presentation only.
- The `_inline_strong` rewriter, because its pattern has no group, so `group(1)` raises on the first match. `ExportInline.ParseInlineReal` runs the other three rewriters. In the source, math-free text with a character outside `[^\]` before `_`, such as `A_b`, makes `_parse_inline` raise, and the export aborts. `ExportLatex.Export` still produces a document for such text.
- ExportInline.ParseInlineReal: the rewriters are modelled as plain string functions. The contract states the citation flag and the math/non-math split, not a general regex semantics for the cite pattern's `.*?`.
- The continuation branch of `ParserHeader.parse`, because `export` always passes `parser == last_parser`, which compares a parser with a list and is false.
- The export file write, `show()` and the `.bib` glob. The base names of the `.bib` files are a parameter of `Export`.
- `ExportHtml`, `Calendar`, `WindowHelper` and `BufferUtils` internals, status-bar messages, and `reset_buffer`/`on_notify_*`. These are wiring between the helper, the view and the engine.
- The DONE date. `strftime('%d %B')` reads the clock, so `switch_tag` takes the date text as a parameter. `TagLine.Today` models its format.
- Scheduler.Normalise: Python builds `_invalid_lines` from a set, so its order is CPython's hash order. The model keeps the list ascending. Every contract about dirty lines is stated as membership, which does not depend on the order. The one place the order matters is the deletion update, which is the first row under Findings.
- Exceptions other than the `IndexError` of `do_indent` (see Findings) are not modelled.
- ExportInline.ReplaceAll: states only that text without the pattern comes back unchanged; the effect of each `replace` is stated through the escaping lemmas (`EscapeOnlyUnderscores`, `EscapeGeq`, `GeqAsWritten`).
- DocumentHelper.GuessIndent: states the unit and a bound on the depth; the exact depth is stated for whole multiples of the unit (`GuessRepeat`), not for ragged indentation.
- `on_cursor_moved` only queues `cursor_moved_real` with `idle_add`. The model applies `cursor_moved_real` (`Validation.CursorMoved`) directly.
- `begin_user_action`/`end_user_action` and `scroll_mark_onscreen` only affect undo grouping and the view. The model returns the edited text and the new cursor column.
- Key presses are identified by GDK key names, not numeric keyvals. The `unicode`/`str` conversion in `set_title` is not modelled.
- Validation.Pass: the pass visits the dirty lines in ascending order, not CPython's set order. Its contracts speak of membership only, so they hold for either order.
- AddAllCovers: states coverage of the matches `match` returns; that these are every `finditer` match is `Validators.MatchLineComplete`, and `Validation.PassCoversEvery` puts the two together.
- Validators.ItersFor: keeps both positions on the region's first line, measured in columns. `forward_chars` crosses newlines, and a Meta region stays valid across a newline typed inside it, since `[^#]*`, `[^:]*` and `\s*` all match a newline; spans that cross a line are not modelled.
- Validation.AddValidate: takes every line as ASCII, so a match offset is a column. Under Python 2 the line text from `get_slice` is a UTF-8 byte string, and `re` gives byte offsets, which `iter_with_offset` hands to the character-counting `forward_chars` (plugin/jft/BufferUtils.py:16, plugin/jft/Validation.py:127-135). On `é $x$` the source puts the LaTeX region's start at column 3, where the model puts it at column 2.
- Validators.ItersFor: takes every line as ASCII, so group offsets are columns. The source computes them from `re`'s byte offsets over the UTF-8 text of `get_text` and moves by them with the character-counting `forward_chars` (plugin/jft/Validators.py:57-69). A group after a non-ASCII character in a Meta region is tagged one column further right per extra byte. `Validators.HideValidate` and `Validators.Exit` inherit this.
- KeyDispatch.KeyPress: the key table dispatches Tab and Shift-Tab to the corrected `DocumentHelper.DoIndent` and Enter to the corrected `DocumentHelper.AutoIndent`, not to `DoIndentAsWritten` and `AutoIndentAsWritten` (the fourth and fifth rows under Findings). On those rows' inputs the program differs. Tab on `["\t* a", "b"]` raises `IndexError` after one rewritten line, where the model gives `["\t\t** a", "b"]`. Enter at column 5 of `"  * a"` gives `"  * a    *\n    * "`, where the model gives `"    * a\n    * "`.
- KeyDispatch.Indent: states the corrected `do_indent`. On a selection mixing list and plain lines the source raises `IndexError` (see `KeyDispatch.KeyPress` above).
- TabIndents: states Tab and Shift-Tab through the corrected `DocumentHelper.DoIndent`. The source's Tab raises on a selection that mixes list and plain lines.
- TabUndo: holds for the corrected `DocumentHelper.DoIndent`, including selections that mix list and plain lines, on which the source's Tab raises `IndexError`.
- EnterAutoIndents: runs the corrected `DocumentHelper.AutoIndent`. On a list line that does not conform, the source reindents from the cursor instead (`DocumentHelper.AutoIndentAsWritten`).
- ExportInline.ParseInlineReal: escapes with the corrected order (`Escape`), not the dictionary order of the source (`EscapeAsWritten`, last row under Findings). So `ParseInline`, `ExportLatex.Step`, `ExportLatex.Run` and the export model the corrected exporter: `a >= b` becomes `a $\geq$ b` where the source writes `a $>$= b`.
- DocumentHelper.DoIndentAsWritten: the text of the partial edit left before the `IndexError` is not modelled, only how many lines were rewritten. `forward_chars` may cross a line end there, and the buffer is left inside an unclosed user action.
- Validation.Pass: a stale LaTeX region that shows its image deletes its image character when it is stopped during the pass; the engine's delete handler then queues one more, empty, pass. That pass is not modelled.
- Validation.OnSaved: restoring an image inserts a child anchor, which GTK reports as insert-child-anchor, not insert-text; the engine's insert hook is taken not to run.
- Validators.CheckRunningProcs: replacing a shown image deletes the old image character, which re-enters the engine's delete handlers. At the validator level that engine call is not modelled.
- TagLine.Today: the month name is taken from an English `%B` locale.
- Regex: the matcher covers only what the validators' patterns use:
  - literals;
  - one-character classes;
  - greedy and lazy star over a class;
  - capture groups.

## Findings

| source | as written | input that shows it | evidently intended | confidence | as-written member | corrected member |
|---|---|---|---|---|---|---|
| plugin/jft/Validation.py:247-252 | the dirty lines at or after the deleted range are shifted from a `bisect_left` point, which presumes an ascending list, but the list is built from a set in hash order | dirty list `[9, 2]` (CPython's order of `{2, 9}`), lines 3 to 5 deleted: 9 is not shifted | every surviving dirty line below the deletion moves up by the deleted lines (9 becomes 7) | not executed | Scheduler.ShiftDirtyAsWrittenMissesLine | Scheduler.ShiftDirty |
| plugin/jft/Validation.py:227-237 | `on_insert_text` marks the inserted lines dirty but leaves the old dirty lines below them where they were | dirty line 10, lines 3 to 5 inserted: line 10 stays dirty, line 12 (its old text) does not become dirty | the dirty lines below the insertion move down with their text | not executed | Scheduler.InsertDirtyAsWrittenMissesLine | Scheduler.InsertDirty |
| plugin/jft/Validation.py:233-237 | keys are shifted from `bisect_right(line + 1)`, which skips regions on the next line and on the insertion line itself | a region on line 4 with a newline typed at the end of line 3 keeps key 4 but starts on line 5; `_find_possible_active(5)` misses it | every region keyed by the line it now starts on, the index kept sorted | not executed | Edits.InsertKeysAsWrittenMissesNextLine | Edits.InsertKeysKeeps |
| plugin/jft/DocumentHelper.py:176-212 | `indent_info` gets entries only for list lines but is indexed by line position | the selection `["\t* a", "b"]` with Tab: `indent_info[1]` raises `IndexError` | plain lines are skipped, list lines re-indented | not executed | DocumentHelper.MixedSelectionRaises | DocumentHelper.IndentUndo |
| plugin/jft/DocumentHelper.py:259-272 | the reindent replaces the text from the cursor (`start` is the insert iter) instead of from the start of the line | `"  * a"` with four-space indentation and the cursor after `a`: the result is `"  * a    *\n    * "` | the line becomes `"    * a"` and the next item `"    * "` follows | not executed | DocumentHelper.CursorExampleAsWritten | DocumentHelper.CursorExampleFixed |
| plugin/jft/Validation.py:254-257 | keys at or after the last deleted line move up, but a region that started inside the deleted lines keeps its key | regions on lines 4 and 5, lines 2 to 5 deleted: keys become `[4, 2]`, no longer sorted | every key goes where its line went (`[2, 2]`), so the index stays sorted | not executed | Edits.DeleteKeysAsWrittenUnsorts | Edits.DeleteKeysKeeps |
| plugin/jft/ExportLatex.py:214-223 | the replacements are applied in the dictionary's iteration order. Under CPython 2.7's string hashing (no hash randomisation) that order is `>`, `<=`, `>=`, `_`, `<`, so `>` has been replaced before `>=` is reached | the text `>=` exports as `$>$=` | `>=` exports as `$\geq$` | not executed; depends on CPython 2.7 dict order | ExportInline.GeqAsWritten | ExportInline.EscapeGeq |
