/** The key handler of the jft view: a table of key names, a modifier
    mask, an action and a "only in jft mode" flag.  A key press runs the
    action of the first row that accepts it; the actions toggle or leave
    the mode, write a tag, re-indent the selected list lines or continue
    a list.  Keys are named as GTK names them (the table maps the names to
    key values once, which is a bijection on the names used). */
module KeyDispatch {
  import opened Wrappers
  import TagLine
  import DocumentHelper
  import opened LatexParsers

  /** The modifier bits the table uses, as in GDK. */
  const SHIFT: bv32 := 1
  const LOCK: bv32 := 2
  const CONTROL: bv32 := 4

  datatype Action =
    | SwitchMode
    | TagWith(tag: TagLine.Tag)
    | EscapeMode
    | IndentAdd
    | IndentRemove
    | Enter

  datatype Handler = Handler(keys: seq<string>, mask: bv32, action: Action, modeOnly: bool)

  const TabKeys: seq<string> := ["Tab", "ISO_Left_Tab", "KP_Tab"]
  const EnterKeys: seq<string> := ["KP_Enter", "ISO_Enter", "Return"]

  /** The handler table, in the order it is searched. */
  const Handlers: seq<Handler> := [
    Handler(["j"], CONTROL, SwitchMode, false),
    Handler(["d"], CONTROL, TagWith(TagLine.Done), true),
    Handler(["t"], CONTROL, TagWith(TagLine.Todo), true),
    Handler(["c"], CONTROL, TagWith(TagLine.Check), true),
    Handler(["l"], CONTROL, TagWith(TagLine.Deadline), true),
    Handler(["Escape"], 0, EscapeMode, true),
    Handler(TabKeys, 0, IndentAdd, false),
    Handler(TabKeys, SHIFT, IndentRemove, false),
    Handler(EnterKeys, 0, Enter, false),
    Handler(EnterKeys, CONTROL, Enter, false)
  ]

  /** A row accepts a key when the mode allows it, the key is one of its
      keys and the modifiers, restricted to the default modifier mask,
      are exactly its mask. */
  predicate Accepts(h: Handler, key: string, mods: bv32, inMode: bool) {
    (!h.modeOnly || inMode) && key in h.keys && mods == h.mask
  }

  /** The first row of `hs` that accepts the key. */
  function FirstAccepting(hs: seq<Handler>, key: string, mods: bv32, inMode: bool): (r: Option<nat>)
    ensures r.Some? ==> r.value < |hs| && Accepts(hs[r.value], key, mods, inMode) &&
                        forall j :: 0 <= j < r.value ==> !Accepts(hs[j], key, mods, inMode)
    ensures r.None? ==> forall j :: 0 <= j < |hs| ==> !Accepts(hs[j], key, mods, inMode)
  {
    if |hs| == 0 then None
    else if Accepts(hs[0], key, mods, inMode) then Some(0)
    else match FirstAccepting(hs[1..], key, mods, inMode)
      case None => None
      case Some(i) => Some(i + 1)
  }

  /** The row a search settles on is the first accepting one. */
  lemma {:induction false} FirstIs(hs: seq<Handler>, key: string, mods: bv32, inMode: bool, i: nat)
    requires i < |hs| && Accepts(hs[i], key, mods, inMode)
    requires forall j :: 0 <= j < i ==> !Accepts(hs[j], key, mods, inMode)
    ensures FirstAccepting(hs, key, mods, inMode) == Some(i)
  {
    if i > 0 {
      assert !Accepts(hs[0], key, mods, inMode);
      assert forall j :: 0 <= j < i - 1 ==> hs[1..][j] == hs[j + 1];
      FirstIs(hs[1..], key, mods, inMode, i - 1);
    }
  }

  /** What the handler sees of the view when a key is pressed: the mode,
      the lines above the cursor line, the cursor line and offset, the
      lines the selection touches (the cursor line without a selection),
      the date `switch_tag` writes and the indentation settings. */
  datatype View = View(inMode: bool, above: seq<string>, line: string, col: nat, selected: seq<string>,
                       today: string, config: DocumentHelper.IndentConfig)

  predicate ValidView(v: View) {
    DocumentHelper.ValidConfig(v.config) && v.col <= |v.line|
  }

  /** The buffer edit a key press makes. */
  datatype Edit = NoEdit | LineEdit(line: string) | LinesEdit(lines: seq<string>)

  /** The outcome of a key press: whether the event stops there (the
      action returned a true value; `None` counts as false and lets GTK
      handle the key too), the new mode and the edit. */
  datatype Press = Press(stop: bool, inMode: bool, edit: Edit)

  /** Running one action.  Tab, Shift-Tab and Enter run the corrected
      `DocumentHelper.DoIndent` and `DocumentHelper.AutoIndent`. */
  function Run(a: Action, v: View, state: bv32): (r: Press)
    requires ValidView(v)
    ensures a.TagWith? ==> r.stop && !r.inMode
    ensures a == SwitchMode ==> r == Press(false, !v.inMode, NoEdit)
    ensures a == EscapeMode ==> r == Press(false, false, NoEdit)
    ensures !a.SwitchMode? && !a.EscapeMode? && !a.TagWith? ==> r.inMode == v.inMode
    ensures !r.stop ==> r.edit == NoEdit
  {
    match a
    case SwitchMode => Press(false, !v.inMode, NoEdit)
    case TagWith(t) => Press(true, false, LineEdit(TagLine.SwitchTag(v.line, t, v.today)))
    case EscapeMode => Press(false, false, NoEdit)
    case IndentAdd => Indent(v, 1)
    case IndentRemove => Indent(v, -1)
    case Enter =>
      match DocumentHelper.AutoIndent(v.above, v.line, v.col, state & CONTROL != 0, v.config)
      case None => Press(false, v.inMode, NoEdit)
      case Some(s) => Press(true, v.inMode, LineEdit(s))
  }

  function Indent(v: View, direct: int): (r: Press)
    requires ValidView(v)
    ensures r.inMode == v.inMode && (r.stop <==> DocumentHelper.AnyList(v.selected))
    ensures !r.stop ==> r.edit == NoEdit
  {
    match DocumentHelper.DoIndent(v.selected, direct, v.config)
    case None => Press(false, v.inMode, NoEdit)
    case Some(ls) => Press(true, v.inMode, LinesEdit(ls))
  }

  /** `on_key_press_event`: the action of the first accepting row, or no
      effect and `False` when no row accepts the key. */
  function KeyPress(v: View, key: string, state: bv32, defaultMask: bv32): (r: Press)
    requires ValidView(v)
    ensures FirstAccepting(Handlers, key, defaultMask & state, v.inMode).None? ==>
              r == Press(false, v.inMode, NoEdit)
    ensures FirstAccepting(Handlers, key, defaultMask & state, v.inMode).Some? ==>
              r == Run(Handlers[FirstAccepting(Handlers, key, defaultMask & state, v.inMode).value].action, v, state)
  {
    match FirstAccepting(Handlers, key, defaultMask & state, v.inMode)
    case None => Press(false, v.inMode, NoEdit)
    case Some(i) => Run(Handlers[i].action, v, state)
  }

  // ---------------------------------------------------------------------
  // Properties of the table
  // ---------------------------------------------------------------------

  /** Control-J always toggles the mode, in or out of it, and lets the key
      through; pressing it twice gives the mode back. */
  lemma SwitchModeToggles(v: View, defaultMask: bv32)
    requires ValidView(v) && defaultMask & CONTROL == CONTROL
    ensures KeyPress(v, "j", CONTROL, defaultMask) == Press(false, !v.inMode, NoEdit)
    ensures var w := v.(inMode := !v.inMode);
            KeyPress(w, "j", CONTROL, defaultMask).inMode == v.inMode
  {
    FirstIs(Handlers, "j", CONTROL, v.inMode, 0);
    FirstIs(Handlers, "j", CONTROL, !v.inMode, 0);
  }

  /** The key of each tag: Control-D, -T, -C and -L. */
  function TagKey(tag: TagLine.Tag): string {
    match tag
    case Done => "d"
    case Todo => "t"
    case Check => "c"
    case Deadline => "l"
  }

  /** The tag keys act only in the mode: outside it they are not handled
      and change nothing; inside it they write the tag on the cursor line,
      stop the key and leave the mode. */
  lemma TagKeys(v: View, tag: TagLine.Tag, defaultMask: bv32)
    requires ValidView(v) && defaultMask & CONTROL == CONTROL
    ensures !v.inMode ==> KeyPress(v, TagKey(tag), CONTROL, defaultMask) == Press(false, false, NoEdit)
    ensures v.inMode ==> KeyPress(v, TagKey(tag), CONTROL, defaultMask) ==
                         Press(true, false, LineEdit(TagLine.SwitchTag(v.line, tag, v.today)))
  {
    if v.inMode {
      TagKeyInMode(v, tag, defaultMask);
    } else {
      TagKeyOutside(v, tag, defaultMask);
    }
  }

  lemma TagKeyOutside(v: View, tag: TagLine.Tag, defaultMask: bv32)
    requires ValidView(v) && defaultMask & CONTROL == CONTROL && !v.inMode
    ensures KeyPress(v, TagKey(tag), CONTROL, defaultMask) == Press(false, false, NoEdit)
  {
    assert forall j :: 0 <= j < |Handlers| ==> !Accepts(Handlers[j], TagKey(tag), CONTROL, false);
  }

  lemma TagKeyInMode(v: View, tag: TagLine.Tag, defaultMask: bv32)
    requires ValidView(v) && defaultMask & CONTROL == CONTROL && v.inMode
    ensures KeyPress(v, TagKey(tag), CONTROL, defaultMask) ==
            Press(true, false, LineEdit(TagLine.SwitchTag(v.line, tag, v.today)))
  {
    TagRow(tag);
  }

  /** In the mode, each tag key settles on its own row. */
  lemma TagRow(tag: TagLine.Tag)
    ensures var r := FirstAccepting(Handlers, TagKey(tag), CONTROL, true);
            r.Some? && r.value < |Handlers| && Handlers[r.value].action == TagWith(tag)
  {
    match tag
    case Done => FirstIs(Handlers, "d", CONTROL, true, 1);
    case Todo => FirstIs(Handlers, "t", CONTROL, true, 2);
    case Check => FirstIs(Handlers, "c", CONTROL, true, 3);
    case Deadline => FirstIs(Handlers, "l", CONTROL, true, 4);
  }

  /** Escape leaves the mode (and lets the key through); outside the mode
      it is not handled at all. */
  lemma EscapeLeaves(v: View, defaultMask: bv32)
    requires ValidView(v)
    ensures KeyPress(v, "Escape", 0, defaultMask) == Press(false, false, NoEdit)
  {
    if v.inMode {
      FirstIs(Handlers, "Escape", defaultMask & 0, true, 5);
    } else {
      assert forall j :: 0 <= j < |Handlers| ==> !Accepts(Handlers[j], "Escape", defaultMask & 0, false);
    }
  }

  /** Tab re-indents the selected list lines one level deeper and
      Shift-Tab (GTK names it ISO_Left_Tab) one level shallower. */
  lemma TabIndents(v: View, defaultMask: bv32)
    requires ValidView(v) && defaultMask & SHIFT == SHIFT
    ensures KeyPress(v, "Tab", 0, defaultMask) == Indent(v, 1)
    ensures KeyPress(v, "ISO_Left_Tab", SHIFT, defaultMask) == Indent(v, -1)
  {
    TabDeeper(v, defaultMask);
    TabShallower(v, defaultMask);
  }

  lemma TabDeeper(v: View, defaultMask: bv32)
    requires ValidView(v)
    ensures KeyPress(v, "Tab", 0, defaultMask) == Indent(v, 1)
  {
    FirstIs(Handlers, "Tab", defaultMask & 0, v.inMode, 6);
  }

  lemma TabShallower(v: View, defaultMask: bv32)
    requires ValidView(v) && defaultMask & SHIFT == SHIFT
    ensures KeyPress(v, "ISO_Left_Tab", SHIFT, defaultMask) == Indent(v, -1)
  {
    FirstIs(Handlers, "ISO_Left_Tab", SHIFT, v.inMode, 7);
  }

  /** Tab then Shift-Tab on a selection whose list lines all conform at
      depth one or more gives the selection back. */
  lemma TabUndo(v: View, defaultMask: bv32)
    requires ValidView(v) && defaultMask & SHIFT == SHIFT
    requires DocumentHelper.AnyList(v.selected) && DocumentHelper.AllConform(v.selected, v.config)
    requires forall i :: 0 <= i < |v.selected| && MatchList(v.selected[i]).Some? ==> DocumentHelper.Depth(v.selected[i]) >= 1
    ensures var once := KeyPress(v, "Tab", 0, defaultMask);
            once.stop && once.edit.LinesEdit? &&
            KeyPress(v.(selected := once.edit.lines), "ISO_Left_Tab", SHIFT, defaultMask) ==
              Press(true, v.inMode, LinesEdit(v.selected))
  {
    TabIndents(v, defaultMask);
    DocumentHelper.IndentUndo(v.selected, v.config);
    TabIndents(v.(selected := DocumentHelper.DoIndent(v.selected, 1, v.config).value), defaultMask);
  }

  /** Enter and Control-Enter run `auto_indent`, with the bullets of the
      new item spaces exactly when Control is held. */
  lemma EnterAutoIndents(v: View, key: string, state: bv32, defaultMask: bv32)
    requires ValidView(v) && key in EnterKeys && (defaultMask & state == 0 || defaultMask & state == CONTROL)
    ensures var r := KeyPress(v, key, state, defaultMask);
            var a := DocumentHelper.AutoIndent(v.above, v.line, v.col, state & CONTROL != 0, v.config);
            r.inMode == v.inMode && r.stop == a.Some? && (a.Some? ==> r.edit == LineEdit(a.value))
  {
    EnterRow(key, defaultMask & state, v.inMode);
    var i := FirstAccepting(Handlers, key, defaultMask & state, v.inMode).value;
    assert KeyPress(v, key, state, defaultMask) == Run(Handlers[i].action, v, state);
    RunEnter(v, state);
  }

  /** The Enter action is `auto_indent`: it stops the key exactly when it
      edits the line. */
  lemma RunEnter(v: View, state: bv32)
    requires ValidView(v)
    ensures var r := Run(Enter, v, state);
            var a := DocumentHelper.AutoIndent(v.above, v.line, v.col, state & CONTROL != 0, v.config);
            r.inMode == v.inMode && r.stop == a.Some? && (a.Some? ==> r.edit == LineEdit(a.value))
  {
  }

  /** Enter, with or without Control, settles on an Enter row. */
  lemma EnterRow(key: string, mods: bv32, inMode: bool)
    requires key in EnterKeys && (mods == 0 || mods == CONTROL)
    ensures var r := FirstAccepting(Handlers, key, mods, inMode);
            r.Some? && r.value < |Handlers| && Handlers[r.value].action == Enter
  {
    if mods == 0 {
      FirstIs(Handlers, key, mods, inMode, 8);
    } else {
      FirstIs(Handlers, key, mods, inMode, 9);
    }
  }

  /** Modifiers outside the default mask do not matter: for a given key
      value, the LOCK bit alone does not change the outcome (the Control
      test of `auto_indent` reads the raw state, and LOCK is not Control). */
  lemma LockIgnored(v: View, key: string, state: bv32, defaultMask: bv32)
    requires ValidView(v) && defaultMask & LOCK == 0
    ensures KeyPress(v, key, state | LOCK, defaultMask) == KeyPress(v, key, state, defaultMask)
  {
    assert defaultMask & (state | LOCK) == defaultMask & state;
    assert (state | LOCK) & CONTROL == state & CONTROL;
  }

  /** A key no row names is never handled. */
  lemma OtherKeys(v: View, key: string, state: bv32, defaultMask: bv32)
    requires ValidView(v)
    requires forall j :: 0 <= j < |Handlers| ==> key !in Handlers[j].keys
    ensures KeyPress(v, key, state, defaultMask) == Press(false, v.inMode, NoEdit)
  {
  }
}
