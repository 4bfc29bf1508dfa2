/** The editing helpers of the jft document view: guessing the indentation
    unit and depth of a list line, re-indenting the list lines of a
    selection (Tab / Shift-Tab), continuing a list on Enter, and the key
    handler table with its "jft mode" flag.  Buffer edits are modelled on
    the text of the lines involved. */
module DocumentHelper {
  import opened Wrappers
  import opened Seqs
  import Regex
  import opened LatexParsers


  // ---------------------------------------------------------------------
  // Indentation settings and `guess_indent`
  // ---------------------------------------------------------------------

  /** The view's indentation settings: insert spaces instead of tabs, the
      indent width (-1 means "use the tab width") and the tab width. */
  datatype IndentConfig = IndentConfig(spaces: bool, indentWidth: int, tabWidth: int)

  /** The values the source view allows for the two widths. */
  predicate ValidConfig(c: IndentConfig) {
    (c.indentWidth == -1 || c.indentWidth > 0) && c.tabWidth > 0
  }

  /** The width of one indentation step. */
  function Width(c: IndentConfig): (w: int)
    requires ValidConfig(c)
    ensures w > 0
  {
    if c.indentWidth == -1 then c.tabWidth else c.indentWidth
  }

  /** One indentation unit: `Width(c)` spaces, or one tab. */
  function Unit(c: IndentConfig): string
    requires ValidConfig(c)
  {
    if c.spaces then Repeat(" ", Width(c)) else "\t"
  }

  /** `guess_indent`: the unit and the depth the leading blanks `indent`
      stand for.  With spaces, every tab counts as one step and the other
      characters are divided by the width; with tabs, every non-space
      counts as one step and the spaces are divided by the width (integer
      division, both operands non-negative). */
  function GuessIndent(indent: string, c: IndentConfig): (r: (string, int))
    requires ValidConfig(c)
    ensures r.0 == Unit(c)
    ensures 0 <= r.1 <= |indent|
  {
    var w := Width(c);
    if c.spaces then
      WithoutCount(indent, '\t');
      DivAtMost(|Without(indent, '\t')|, w);
      (Repeat(" ", w), |Without(indent, '\t')| / w + Occurrences(indent, '\t'))
    else
      WithoutCount(indent, ' ');
      DivAtMost(Occurrences(indent, ' '), w);
      ("\t", |Without(indent, ' ')| + Occurrences(indent, ' ') / w)
  }

  /** `n` units read back as depth `n`. */
  lemma GuessRepeat(c: IndentConfig, n: nat)
    requires ValidConfig(c)
    ensures GuessIndent(Repeat(Unit(c), n), c) == (Unit(c), n)
  {
    if c.spaces { GuessSpaces(c, n); } else { GuessTabs(c, n); }
  }

  lemma GuessSpaces(c: IndentConfig, n: nat)
    requires ValidConfig(c) && c.spaces
    ensures GuessIndent(Repeat(Unit(c), n), c).1 == n
  {
    var w := Width(c);
    var s := Repeat(Unit(c), n);
    assert '\t' !in s by {
      RepeatIn(" ", w, '\t');
      RepeatIn(Unit(c), n, '\t');
    }
    assert |Without(s, '\t')| == n * w by {
      WithoutNone(s, '\t');
    }
    assert Occurrences(s, '\t') == 0 by {
      OccurrencesNone(s, '\t');
    }
    DivMultiple(n, w);
  }

  lemma GuessTabs(c: IndentConfig, n: nat)
    requires ValidConfig(c) && !c.spaces
    ensures GuessIndent(Repeat(Unit(c), n), c).1 == n
  {
    var s := Repeat(Unit(c), n);
    assert ' ' !in s by {
      RepeatIn(Unit(c), n, ' ');
    }
    WithoutNone(s, ' ');
    OccurrencesNone(s, ' ');
  }

  /** Dividing a multiple of `w` by `w`. */
  lemma DivMultiple(n: nat, w: int)
    requires w > 0
    ensures (n * w) / w == n
  {
    var q := (n * w) / w;
    assert n * w == q * w + (n * w) % w && 0 <= (n * w) % w < w;
    MulBounds(q - n, w);
  }

  /** Integer division by a positive number does not grow a count. */
  lemma DivAtMost(a: nat, w: int)
    requires w > 0
    ensures 0 <= a / w <= a
  {
    var q := a / w;
    assert a == q * w + a % w && 0 <= a % w < w;
    MulBounds(q, w);
    MulBounds(w, q);
  }

  /** Multiplying by a factor of absolute value at least one. */
  lemma MulBounds(x: int, y: int)
    requires y >= 0
    ensures x >= 1 ==> x * y >= y
    ensures x <= -1 ==> x * y <= -y
  {
    if x >= 1 {
      MulAtLeast(x, y);
    } else if x <= -1 {
      MulAtLeast(-x, y);
      assert x * y == -((-x) * y);
    }
  }

  lemma {:induction false} MulAtLeast(x: int, y: nat)
    requires x >= 1
    ensures x * y >= y
    decreases x
  {
    if x > 1 {
      MulAtLeast(x - 1, y);
      assert x * y == (x - 1) * y + y;
    }
  }

  /** Every blank unit repeated is blank. */
  lemma UnitBlank(c: IndentConfig, n: nat)
    requires ValidConfig(c)
    ensures AllSpace(Repeat(Unit(c), n))
  {
    var s := Repeat(Unit(c), n);
    forall j | 0 <= j < |s| ensures Regex.IsSpace(s[j]) {
      RepeatIn(Unit(c), n, s[j]);
      if c.spaces { RepeatIn(" ", Width(c), s[j]); }
    }
  }

  // ---------------------------------------------------------------------
  // List lines, conformance and `reindent_list`
  // ---------------------------------------------------------------------

  /** The run of stars ends the match of `^(\s*)(\*+)`: what follows is
      not a star. */
  lemma StarsEnd(line: string)
    requires MatchList(line).Some?
    ensures var m := MatchList(line).value;
            m.lead + m.stars <= |line| && (m.lead + m.stars < |line| ==> line[m.lead + m.stars] != '*')
  {
  }

  /** The nesting depth of a list line: its number of stars. */
  function Depth(line: string): nat
    requires MatchList(line).Some?
  {
    MatchList(line).value.stars
  }

  /** What follows the stars of a list line (`line[m.end(2):]`). */
  function Body(line: string): string
    requires MatchList(line).Some?
  {
    StarsEnd(line);
    var m := MatchList(line).value;
    line[m.lead + m.stars..]
  }

  /** The prefix `reindent_list` writes: `depth` units then `depth` bullets. */
  function Item(c: IndentConfig, depth: int, bullet: char): string
    requires ValidConfig(c)
  {
    Repeat(Unit(c), depth) + Repeat([bullet], depth)
  }

  /** The test `do_indent` and `auto_indent` share: the leading blanks are
      exactly the guessed number of units, and that number is the number
      of stars. */
  predicate Conforms(line: string, c: IndentConfig)
    requires ValidConfig(c)
  {
    match MatchList(line)
    case None => false
    case Some(m) =>
      var g := GuessIndent(line[..m.lead], c);
      line[..m.lead] == Repeat(g.0, g.1) && g.1 == m.stars
  }

  /** A conforming line is its item prefix followed by its body. */
  lemma ConformsShape(line: string, c: IndentConfig)
    requires ValidConfig(c) && Conforms(line, c)
    ensures line == Item(c, Depth(line), '*') + Body(line)
  {
    var m := MatchList(line).value;
    var n := m.stars;
    RepeatAll('*', n);
    assert line[m.lead..m.lead + n] == Repeat("*", n);
    assert line == line[..m.lead] + line[m.lead..m.lead + n] + line[m.lead + n..];
  }

  /** An item prefix of depth `n >= 1` followed by text that does not start
      with a star is a conforming list line of depth `n` with that text as
      its body: the converse of `ConformsShape`. */
  lemma ItemConforms(c: IndentConfig, n: nat, rest: string)
    requires ValidConfig(c) && n >= 1 && (|rest| == 0 || rest[0] != '*')
    ensures var line := Item(c, n, '*') + rest;
            MatchList(line).Some? && Conforms(line, c) && Depth(line) == n && Body(line) == rest
  {
    var w := Repeat(Unit(c), n);
    var line := Item(c, n, '*') + rest;
    assert MatchList(line).Some? && MatchList(line).value.lead == |w| && MatchList(line).value.stars == n by {
      UnitBlank(c, n);
      ItemMatch(w, n, rest);
    }
    assert line[..|w|] == w && line[|w| + n..] == rest by {
      var st := Repeat("*", n);
      RepeatAll('*', n);
      LiteralPrefix(w, st + rest);
      assert Item(c, n, '*') == w + st;
      Assoc(w, st, rest);
    }
    GuessRepeat(c, n);
  }

  lemma Assoc(a: string, b: string, c: string)
    ensures (a + b) + c == a + (b + c)
  {
  }

  /** The list match of blanks, `n` stars and text not starting with a star. */
  lemma ItemMatch(w: string, n: nat, rest: string)
    requires AllSpace(w) && n >= 1 && (|rest| == 0 || rest[0] != '*')
    ensures var m := MatchList(w + Repeat("*", n) + rest);
            m.Some? && m.value.lead == |w| && m.value.stars == n
  {
    var st := Repeat("*", n);
    var k := Lead(rest);
    var g := rest[..k];
    var t := rest[k..];
    RepeatAll('*', n);
    assert rest == g + t;
    assert w + st + rest == w + (st + (g + t));
    ListPieces(w, st, g, t);
  }

  /** `reindent_list` on a list line: its leading blanks and stars become
      `depth` units and `depth` stars.  With `depth >= 1` the result is a
      conforming list line of that depth with the same body; with
      `depth <= 0` the bullet disappears and only the body is left. */
  function Reindent(line: string, c: IndentConfig, depth: int): (r: string)
    requires ValidConfig(c) && MatchList(line).Some?
    ensures depth >= 1 ==> MatchList(r).Some? && Conforms(r, c) && Depth(r) == depth && Body(r) == Body(line)
    ensures depth <= 0 ==> r == Body(line)
  {
    var rest := Body(line);
    StarsEnd(line);
    if depth >= 1 then
      ItemConforms(c, depth, rest);
      Item(c, depth, '*') + rest
    else
      Item(c, depth, '*') + rest
  }

  // ---------------------------------------------------------------------
  // `do_indent`
  // ---------------------------------------------------------------------

  /** Whether the selection has a list line at all (`ret`). */
  predicate AnyList(sel: seq<string>) {
    exists i :: 0 <= i < |sel| && MatchList(sel[i]).Some?
  }

  /** Whether every list line of the selection conforms (`not reindent`). */
  predicate AllConform(sel: seq<string>, c: IndentConfig)
    requires ValidConfig(c)
  {
    forall i :: 0 <= i < |sel| && MatchList(sel[i]).Some? ==> Conforms(sel[i], c)
  }

  /** The depth `do_indent` gives one list line: its own star count when
      some list line of the selection does not conform, otherwise its
      depth moved by `direct`. */
  function NewDepth(line: string, normalise: bool, direct: int): int
    requires MatchList(line).Some?
  {
    if normalise then Depth(line) else Depth(line) + direct
  }

  /** `do_indent(direct)` on the lines of the selection, with the
      non-list lines skipped (the corrected reading; see
      `DoIndentAsWritten`).  `None` is the `False` returned when no line
      is a list line. */
  function DoIndent(sel: seq<string>, direct: int, c: IndentConfig): (r: Option<seq<string>>)
    requires ValidConfig(c)
    ensures r.None? <==> !AnyList(sel)
    ensures r.Some? ==> |r.value| == |sel|
    ensures r.Some? ==> forall i :: 0 <= i < |sel| && MatchList(sel[i]).None? ==> r.value[i] == sel[i]
    ensures r.Some? ==> forall i :: 0 <= i < |sel| && MatchList(sel[i]).Some? ==>
              var d := NewDepth(sel[i], !AllConform(sel, c), direct);
              (d >= 1 ==> MatchList(r.value[i]).Some? && Conforms(r.value[i], c) &&
                          Depth(r.value[i]) == d && Body(r.value[i]) == Body(sel[i])) &&
              (d <= 0 ==> r.value[i] == Body(sel[i]))
  {
    if !AnyList(sel) then None
    else
      var normalise := !AllConform(sel, c);
      Some(seq(|sel|, i requires 0 <= i < |sel| =>
        if MatchList(sel[i]).None? then sel[i] else Reindent(sel[i], c, NewDepth(sel[i], normalise, direct))))
  }

  /** Tab then Shift-Tab gives back the selection, when every list line
      conforms at depth one or more. */
  lemma IndentUndo(sel: seq<string>, c: IndentConfig)
    requires ValidConfig(c) && AnyList(sel) && AllConform(sel, c)
    requires forall i :: 0 <= i < |sel| && MatchList(sel[i]).Some? ==> Depth(sel[i]) >= 1
    ensures DoIndent(sel, 1, c).Some?
    ensures DoIndent(DoIndent(sel, 1, c).value, -1, c) == Some(sel)
  {
    assert DoIndent(sel, 1, c).Some? && DoIndent(DoIndent(sel, 1, c).value, -1, c).Some? by {
      UndoAt(sel, c, 0);
    }
    var back := DoIndent(DoIndent(sel, 1, c).value, -1, c).value;
    assert |back| == |sel| && forall i :: 0 <= i < |sel| ==> back[i] == sel[i] by {
      UndoAt(sel, c, 0);
      forall i | 0 <= i < |sel| ensures back[i] == sel[i] {
        UndoAt(sel, c, i);
      }
    }
    SameSeq(back, sel);
  }

  lemma SameSeq(a: seq<string>, b: seq<string>)
    requires |a| == |b| && forall i :: 0 <= i < |a| ==> a[i] == b[i]
    ensures a == b
  {
  }

  lemma UndoAt(sel: seq<string>, c: IndentConfig, i: nat)
    requires ValidConfig(c) && AnyList(sel) && AllConform(sel, c) && i < |sel|
    requires forall i :: 0 <= i < |sel| && MatchList(sel[i]).Some? ==> Depth(sel[i]) >= 1
    ensures DoIndent(sel, 1, c).Some?
    ensures var mid := DoIndent(sel, 1, c).value;
            DoIndent(mid, -1, c).Some? && |DoIndent(mid, -1, c).value| == |sel| && DoIndent(mid, -1, c).value[i] == sel[i]
  {
    IndentOnce(sel, c);
    var mid := DoIndent(sel, 1, c).value;
    var back := DoIndent(mid, -1, c).value;
    if MatchList(sel[i]).Some? {
      UndoLine(sel[i], mid[i], back[i], c);
    }
  }

  /** One line of `IndentUndo`: same item text and depth gives the same line. */
  lemma UndoLine(x: string, y: string, z: string, c: IndentConfig)
    requires ValidConfig(c) && Conforms(x, c) && Conforms(z, c)
    requires MatchList(y).Some? && Depth(z) == Depth(y) - 1 && Body(z) == Body(y)
    requires Depth(y) == Depth(x) + 1 && Body(y) == Body(x)
    ensures z == x
  {
    ConformsShape(x, c);
    ConformsShape(z, c);
  }

  /** After Tab on a conforming selection the list lines are the same lines,
      one level deeper, and still all conform. */
  lemma IndentOnce(sel: seq<string>, c: IndentConfig)
    requires ValidConfig(c) && AnyList(sel) && AllConform(sel, c)
    requires forall i :: 0 <= i < |sel| && MatchList(sel[i]).Some? ==> Depth(sel[i]) >= 1
    ensures DoIndent(sel, 1, c).Some?
    ensures var mid := DoIndent(sel, 1, c).value;
            |mid| == |sel| && AnyList(mid) && AllConform(mid, c) &&
            (forall i :: 0 <= i < |sel| && MatchList(sel[i]).None? ==> mid[i] == sel[i]) &&
            (forall i :: 0 <= i < |sel| && MatchList(sel[i]).Some? ==>
               MatchList(mid[i]).Some? && Conforms(mid[i], c) &&
               Depth(mid[i]) == Depth(sel[i]) + 1 && Body(mid[i]) == Body(sel[i]))
  {
    var mid := DoIndent(sel, 1, c).value;
    forall i | 0 <= i < |sel| && MatchList(sel[i]).Some?
      ensures MatchList(mid[i]).Some? && Conforms(mid[i], c) &&
              Depth(mid[i]) == Depth(sel[i]) + 1 && Body(mid[i]) == Body(sel[i])
    {
      assert NewDepth(sel[i], false, 1) == Depth(sel[i]) + 1;
    }
    assert AnyList(mid) by {
      var i :| 0 <= i < |sel| && MatchList(sel[i]).Some?;
      assert MatchList(mid[i]).Some?;
    }
    assert AllConform(mid, c) by {
      forall i | 0 <= i < |mid| && MatchList(mid[i]).Some? ensures Conforms(mid[i], c) {
        assert MatchList(sel[i]).Some?;
      }
    }
  }

  /** How many lines of the selection are list lines: the length
      `indent_info` reaches. */
  function ListCount(sel: seq<string>): (n: nat)
    ensures n <= |sel|
  {
    if |sel| == 0 then 0 else (if MatchList(sel[0]).Some? then 1 else 0) + ListCount(sel[1..])
  }

  /** Every line is counted exactly when every line is a list line, and none
      is counted exactly when none is. */
  lemma ListCountBounds(sel: seq<string>)
    ensures ListCount(sel) == |sel| <==> forall i :: 0 <= i < |sel| ==> MatchList(sel[i]).Some?
    ensures ListCount(sel) == 0 <==> !AnyList(sel)
  {
    ListCountAll(sel);
    ListCountNone(sel);
  }

  lemma {:induction false} ListCountAll(sel: seq<string>)
    ensures ListCount(sel) == |sel| <==> forall i :: 0 <= i < |sel| ==> MatchList(sel[i]).Some?
  {
    if |sel| > 0 {
      var tl := sel[1..];
      ListCountAll(tl);
      assert forall i :: 1 <= i < |sel| ==> sel[i] == tl[i - 1];
    }
  }

  lemma {:induction false} ListCountNone(sel: seq<string>)
    ensures ListCount(sel) == 0 <==> !AnyList(sel)
  {
    if |sel| > 0 {
      var tl := sel[1..];
      ListCountNone(tl);
      if AnyList(tl) {
        var i :| 0 <= i < |tl| && MatchList(tl[i]).Some?;
        assert MatchList(sel[i + 1]).Some?;
      }
      if AnyList(sel) && MatchList(sel[0]).None? {
        var i :| 0 <= i < |sel| && MatchList(sel[i]).Some?;
        assert MatchList(tl[i - 1]).Some?;
      }
    }
  }

  /** What `do_indent` does as written: `None` when no line is a list
      line, `Raised` when the selection mixes list and other lines (the
      loop reads `indent_info[i]` for every line position although only
      list lines were recorded, so it runs past the end after rewriting the
      first `rewritten` lines), otherwise the same edit as `DoIndent`. */
  datatype IndentOutcome = NotList | Edited(lines: seq<string>) | Raised(rewritten: nat)

  function DoIndentAsWritten(sel: seq<string>, direct: int, c: IndentConfig): (r: IndentOutcome)
    requires ValidConfig(c)
    ensures r.NotList? <==> !AnyList(sel)
    ensures r.Raised? <==> AnyList(sel) && exists i :: 0 <= i < |sel| && MatchList(sel[i]).None?
    ensures r.Raised? ==> r.rewritten == ListCount(sel) && 0 < r.rewritten < |sel|
    ensures r.Edited? ==> DoIndent(sel, direct, c) == Some(r.lines)
  {
    if !AnyList(sel) then NotList
    else if exists i :: 0 <= i < |sel| && MatchList(sel[i]).None? then
      ListCountBounds(sel);
      Raised(ListCount(sel))
    else Edited(DoIndent(sel, direct, c).value)
  }

  /** A selection of a conforming list line and a plain line: indenting it
      as written raises, the corrected reading indents the list line and
      keeps the plain one. */
  lemma MixedPair(x: string, y: string, direct: int, c: IndentConfig)
    requires ValidConfig(c) && Conforms(x, c) && MatchList(y).None?
    ensures DoIndentAsWritten([x, y], direct, c) == Raised(1)
    ensures DoIndent([x, y], direct, c) == Some([Reindent(x, c, Depth(x) + direct), y])
  {
    MixedFlags(x, y, c);
    MixedRaises(x, y, direct, c);
    MixedIndents(x, y, direct, c);
  }

  /** Helper lemma: the two-line selection conforms and holds a list line. */
  lemma MixedFlags(x: string, y: string, c: IndentConfig)
    requires ValidConfig(c) && Conforms(x, c) && MatchList(y).None?
    ensures AllConform([x, y], c) && AnyList([x, y])
  {
    var sel := [x, y];
    assert sel[0] == x && sel[1] == y;
  }

  lemma MixedRaises(x: string, y: string, direct: int, c: IndentConfig)
    requires ValidConfig(c) && Conforms(x, c) && MatchList(y).None?
    requires AllConform([x, y], c) && AnyList([x, y])
    ensures DoIndentAsWritten([x, y], direct, c) == Raised(1)
  {
    assert [x, y][1] == y;
  }

  lemma MixedIndents(x: string, y: string, direct: int, c: IndentConfig)
    requires ValidConfig(c) && Conforms(x, c) && MatchList(y).None?
    requires AllConform([x, y], c) && AnyList([x, y])
    ensures DoIndent([x, y], direct, c) == Some([Reindent(x, c, Depth(x) + direct), y])
  {
    MixedFirst(x, y, direct, c);
    MixedSecond(x, y, direct, c);
    PairOf(DoIndent([x, y], direct, c).value, Reindent(x, c, Depth(x) + direct), y);
  }

  lemma MixedFirst(x: string, y: string, direct: int, c: IndentConfig)
    requires ValidConfig(c) && Conforms(x, c) && AllConform([x, y], c) && AnyList([x, y])
    ensures DoIndent([x, y], direct, c).Some? && |DoIndent([x, y], direct, c).value| == 2
    ensures DoIndent([x, y], direct, c).value[0] == Reindent(x, c, Depth(x) + direct)
  {
    DoIndentAt([x, y], direct, c, 0);
  }

  lemma MixedSecond(x: string, y: string, direct: int, c: IndentConfig)
    requires ValidConfig(c) && MatchList(y).None? && AnyList([x, y])
    ensures DoIndent([x, y], direct, c).Some? && |DoIndent([x, y], direct, c).value| == 2
    ensures DoIndent([x, y], direct, c).value[1] == y
  {
    DoIndentAt([x, y], direct, c, 1);
  }

  /** One line of `DoIndent`'s result. */
  lemma DoIndentAt(sel: seq<string>, direct: int, c: IndentConfig, i: nat)
    requires ValidConfig(c) && AnyList(sel) && i < |sel|
    ensures DoIndent(sel, direct, c).Some?
    ensures DoIndent(sel, direct, c).value[i] ==
              if MatchList(sel[i]).None? then sel[i]
              else Reindent(sel[i], c, NewDepth(sel[i], !AllConform(sel, c), direct))
  {
  }

  /** The smallest instance: a tab-indented item and a plain line. */
  lemma MixedSelectionRaises()
    ensures var c := IndentConfig(false, -1, 8);
            ValidConfig(c) && DoIndentAsWritten(["\t* a", "b"], 1, c).Raised? &&
            DoIndent(["\t* a", "b"], 1, c) == Some(["\t\t** a", "b"])
  {
    MixedFacts();
    MixedPair("\t* a", "b", 1, IndentConfig(false, -1, 8));
  }

  lemma MixedFacts()
    ensures var c := IndentConfig(false, -1, 8);
            ValidConfig(c) && Conforms("\t* a", c) && MatchList("b").None? &&
            Depth("\t* a") == 1 && Reindent("\t* a", c, 2) == "\t\t** a"
  {
    var c := IndentConfig(false, -1, 8);
    var sel := ["\t* a", "b"];
    assert Conforms(sel[0], c) && Depth(sel[0]) == 1 && Body(sel[0]) == " a" by {
      TabItems();
      ItemConforms(c, 1, " a");
    }
    assert MatchList(sel[1]).None? by {
      assert Lead("b") == 0;
    }
    assert Reindent(sel[0], c, 2) == "\t\t** a" by {
      TabItems();
    }
  }

  /** The item prefixes of depth one and two with tab indentation. */
  lemma TabItems()
    ensures Item(IndentConfig(false, -1, 8), 1, '*') + " a" == "\t* a"
    ensures Item(IndentConfig(false, -1, 8), 2, '*') + " a" == "\t\t** a"
  {
    var c := IndentConfig(false, -1, 8);
    assert Unit(c) == "\t";
    assert Repeat("\t", 1) == "\t";
    assert Repeat("*", 1) == "*";
    assert Repeat("\t", 2) == "\t\t";
    assert Repeat("*", 2) == "**";
  }

  // ---------------------------------------------------------------------
  // `auto_indent` and `maybe_new_list_item` (Enter)
  // ---------------------------------------------------------------------

  /** `s` with `ins` inserted at offset `k`. */
  function InsertAt(s: string, k: nat, ins: string): (r: string)
    requires k <= |s|
    ensures |r| == |s| + |ins|
    ensures r[..k] + r[k + |ins|..] == s && r[k..k + |ins|] == ins
  {
    var r := s[..k] + ins + s[k..];
    assert r[..k] == s[..k] && r[k..k + |ins|] == ins && r[k + |ins|..] == s[k..];
    assert s[..k] + s[k..] == s;
    r
  }

  /** A list line as `auto_indent` leaves it before splitting: unchanged
      when it conforms, otherwise re-indented to its own star count.
      Either way it conforms, at the same depth and with the same body. */
  function Normal(line: string, c: IndentConfig): (r: string)
    requires ValidConfig(c) && MatchList(line).Some?
    ensures MatchList(r).Some? && Conforms(r, c) && Depth(r) == Depth(line) && Body(r) == Body(line)
    ensures Conforms(line, c) ==> r == line
  {
    if Conforms(line, c) then line else Reindent(line, c, Depth(line))
  }

  /** Where the cursor is on the normalised line: a deletion before the
      cursor moves it back; a cursor inside the deleted prefix ends up
      after the inserted prefix (the insert mark keeps right gravity). */
  function CursorAfter(line: string, col: nat, c: IndentConfig): (k: nat)
    requires ValidConfig(c) && MatchList(line).Some? && col <= |line|
    ensures k <= |Normal(line, c)|
    ensures Conforms(line, c) ==> k == col
  {
    if Conforms(line, c) then col
    else
      StarsEnd(line);
      var m := MatchList(line).value;
      var e := m.lead + m.stars;
      var p := |Item(c, Depth(line), '*')|;
      assert |Normal(line, c)| == p + |Body(line)|;
      if col <= e then p else col - e + p
  }

  /** The text `auto_indent` inserts to start the next item of depth `d`. */
  function NextItem(c: IndentConfig, d: int, control: bool): string
    requires ValidConfig(c)
  {
    "\n" + Item(c, d, if control then ' ' else '*') + " "
  }

  /** The last list line above the cursor line, nearest first. */
  function LastListLine(above: seq<string>): (r: Option<nat>)
    ensures r.None? <==> forall i :: 0 <= i < |above| ==> MatchList(above[i]).None?
    ensures r.Some? ==> r.value < |above| && MatchList(above[r.value]).Some? &&
                        forall i :: r.value < i < |above| ==> MatchList(above[i]).None?
  {
    var flags := seq(|above|, i requires 0 <= i < |above| => MatchList(above[i]).Some?);
    assert forall i :: 0 <= i < |above| ==> (flags[i] <==> MatchList(above[i]).Some?);
    LastTrue(flags)
  }

  /** The index of the last `true`, if any. */
  function LastTrue(flags: seq<bool>): (r: Option<nat>)
    ensures r.None? <==> forall i :: 0 <= i < |flags| ==> !flags[i]
    ensures r.Some? ==> r.value < |flags| && flags[r.value] && forall i :: r.value < i < |flags| ==> !flags[i]
  {
    if |flags| == 0 then None
    else if flags[|flags| - 1] then Some(|flags| - 1)
    else LastTrue(flags[..|flags| - 1])
  }

  /** The leading blanks and stars of a list line (`match.group(0)`). */
  function Bullet(line: string): (r: string)
    requires MatchList(line).Some?
    ensures r + Body(line) == line
  {
    StarsEnd(line);
    var m := MatchList(line).value;
    assert line[..m.lead + m.stars] + line[m.lead + m.stars..] == line;
    line[..m.lead + m.stars]
  }

  /** `maybe_new_list_item`: with Control held on a line that is not a
      list line, the nearest list line above supplies its blanks and stars
      for a new item started at the cursor.  `None` (`False`) when there
      is no list line above. */
  function MaybeNewListItem(above: seq<string>, line: string, col: nat): (r: Option<string>)
    requires col <= |line|
    ensures r.None? <==> forall i :: 0 <= i < |above| ==> MatchList(above[i]).None?
    ensures r.Some? ==> |r.value| == |line| + 2 + |Bullet(above[LastListLine(above).value])|
    ensures r.Some? ==>
              var i := LastListLine(above).value;
              var ins := "\n" + Bullet(above[i]) + " ";
              r.value[..col] + r.value[col + |ins|..] == line && r.value[col..col + |ins|] == ins
  {
    var last := LastListLine(above);
    if last.None? then None
    else
      var ins := "\n" + Bullet(above[last.value]) + " ";
      var r := InsertAt(line, col, ins);
      Some(r)
  }

  /** The new line `maybe_new_list_item` starts is a list line with the
      same leading blanks and stars as the list line it copies. */
  lemma NewItemCopies(model: string, rest: string)
    requires MatchList(model).Some?
    ensures var s := Bullet(model) + " " + rest;
            MatchList(s).Some? && MatchList(s).value.lead == MatchList(model).value.lead &&
            Depth(s) == Depth(model)
  {
    var m := MatchList(model).value;
    var w := model[..m.lead];
    var n := m.stars;
    StarsEnd(model);
    assert AllSpace(w);
    assert Bullet(model) == w + Repeat("*", n) by {
      assert Bullet(model) == w + model[m.lead..m.lead + n];
      AllStars(model[m.lead..m.lead + n]);
    }
    ItemMatch(w, n, " " + rest);
    Assoc(w + Repeat("*", n), " ", rest);
  }

  /** Helper lemma: a run of stars is `Repeat("*", n)`. */
  lemma AllStars(s: string)
    requires forall j :: 0 <= j < |s| ==> s[j] == '*'
    ensures s == Repeat("*", |s|)
  {
    RepeatAll('*', |s|);
  }

  /** `auto_indent` (Enter, or Control-Enter) on the cursor line `line` at
      offset `col`, with the lines above it: the new text of the line, or
      `None` for `False`.  On a list line the line is first normalised to
      its own star count, then the next item of the same depth is started
      at the (moved) cursor; with Control the bullets are spaces.  Off a
      list line only Control-Enter acts, through `maybe_new_list_item`.
      This is the corrected reading: see `AutoIndentAsWritten`. */
  function AutoIndent(above: seq<string>, line: string, col: nat, control: bool, c: IndentConfig): (r: Option<string>)
    requires ValidConfig(c) && col <= |line|
    ensures r.None? <==> MatchList(line).None? && (!control || forall i :: 0 <= i < |above| ==> MatchList(above[i]).None?)
    ensures MatchList(line).None? && control ==> r == MaybeNewListItem(above, line, col)
    ensures MatchList(line).Some? ==>
              r.Some? && |r.value| == |Normal(line, c)| + |NextItem(c, Depth(line), control)|
    ensures MatchList(line).Some? ==>
              var k := CursorAfter(line, col, c);
              var ins := NextItem(c, Depth(line), control);
              r.value[..k] + r.value[k + |ins|..] == Normal(line, c) && r.value[k..k + |ins|] == ins
  {
    if MatchList(line).None? then
      if control then MaybeNewListItem(above, line, col) else None
    else
      Some(InsertAt(Normal(line, c), CursorAfter(line, col, c), NextItem(c, Depth(line), control)))
  }

  /** Enter on a list line continues the list: after the split, the new
      line is a conforming list line of the same depth, and the line
      before it is the start of the normalised line. */
  lemma EnterContinuesList(above: seq<string>, line: string, col: nat, c: IndentConfig)
    requires ValidConfig(c) && col <= |line| && MatchList(line).Some?
    ensures var r := AutoIndent(above, line, col, false, c).value;
            var k := CursorAfter(line, col, c);
            var d := Depth(line);
            var next := r[k + 1..];
            r[..k] == Normal(line, c)[..k] && r[k] == '\n' &&
            MatchList(next).Some? && Conforms(next, c) && Depth(next) == d
  {
    var x := Normal(line, c);
    var k := CursorAfter(line, col, c);
    var d := Depth(line);
    assert AutoIndent(above, line, col, false, c).value == InsertAt(x, k, NextItem(c, d, false));
    SplitItem(x, k, d, c);
  }

  /** Inserting the next star item splits a text into its start and a
      conforming list line of depth `d`. */
  lemma SplitItem(x: string, k: nat, d: nat, c: IndentConfig)
    requires ValidConfig(c) && k <= |x| && d >= 1
    ensures var r := InsertAt(x, k, NextItem(c, d, false));
            var next := r[k + 1..];
            r[..k] == x[..k] && r[k] == '\n' && MatchList(next).Some? && Conforms(next, c) && Depth(next) == d
  {
    var r := InsertAt(x, k, NextItem(c, d, false));
    var b := Item(c, d, '*') + (" " + x[k..]);
    assert r == x[..k] + ("\n" + b) by {
      assert NextItem(c, d, false) == "\n" + Item(c, d, '*') + " ";
    }
    NewlineSplit(x[..k], b);
    ItemConforms(c, d, " " + x[k..]);
  }

  lemma NewlineSplit(a: string, b: string)
    ensures var s := a + ("\n" + b);
            s[..|a|] == a && s[|a|] == '\n' && s[|a| + 1..] == b
  {
    var s := a + ("\n" + b);
    assert s[|a|..] == "\n" + b;
  }

  /** `auto_indent` as written: a non-conforming line is re-indented from
      the cursor instead of from the start of the line, so it deletes
      `m.end(2)` characters after the cursor (running into the following
      text `after` when the line is shorter) and inserts the prefix at the
      cursor.  The result replaces `line + after`. */
  function AutoIndentAsWritten(above: seq<string>, line: string, after: string, col: nat, control: bool,
                               c: IndentConfig): (r: Option<string>)
    requires ValidConfig(c) && col <= |line|
    ensures MatchList(line).None? || Conforms(line, c) ==>
              r == (match AutoIndent(above, line, col, control, c)
                    case None => None
                    case Some(x) => Some(x + after))
  {
    if MatchList(line).Some? && !Conforms(line, c) then
      StarsEnd(line);
      var m := MatchList(line).value;
      var text := line + after;
      var e := if col + m.lead + m.stars <= |text| then col + m.lead + m.stars else |text|;
      var d := Depth(line);
      Some(text[..col] + Item(c, d, '*') + NextItem(c, d, control) + text[e..])
    else
      match AutoIndent(above, line, col, control, c)
      case None => None
      case Some(x) =>
        assert x + after == (x + after);
        Some(x + after)
  }

  /** Enter at the end of "  * a" with four-space indentation: the code
      as written leaves the old prefix and appends the new one after the
      text, where re-indenting from the start of the line gives
      "    * a" followed by a new item. */
  lemma AutoIndentFromCursor()
    ensures var c := IndentConfig(true, 4, 8);
            ValidConfig(c) &&
            AutoIndentAsWritten([], "  * a", "", 5, false, c) == Some("  * a    *\n    * ") &&
            AutoIndent([], "  * a", 5, false, c) == Some("    * a\n    * ")
  {
    CursorFacts();
    CursorExampleFixed();
    CursorExampleAsWritten();
  }

  lemma CursorExampleFixed()
    ensures var c := IndentConfig(true, 4, 8);
            ValidConfig(c) && AutoIndent([], "  * a", 5, false, c) == Some("    * a\n    * ")
  {
    CursorFacts();
    assert InsertAt("    * a", 7, "\n    * ") == "    * a\n    * " by {
      assert "    * a"[..7] == "    * a";
      assert "    * a"[7..] == "";
    }
  }

  lemma CursorExampleAsWritten()
    ensures var c := IndentConfig(true, 4, 8);
            ValidConfig(c) && AutoIndentAsWritten([], "  * a", "", 5, false, c) == Some("  * a    *\n    * ")
  {
    CursorFacts();
    var line := "  * a";
    var text := line + "";
    assert text[..5] == line && text[5..] == "";
    assert line + "    *" + "\n    * " + "" == "  * a    *\n    * ";
  }

  /** The pieces of the example: the list match of "  * a", that it does
      not conform with four-space units, its normal form and the cursor. */
  lemma CursorFacts()
    ensures var c := IndentConfig(true, 4, 8);
            var line := "  * a";
            ValidConfig(c) && MatchList(line) == Some(ListMatch(2, 1, 4)) && !Conforms(line, c) &&
            Depth(line) == 1 && Item(c, 1, '*') == "    *" && NextItem(c, 1, false) == "\n    * " &&
            Normal(line, c) == "    * a" && CursorAfter(line, 5, c) == 7
  {
    var c := IndentConfig(true, 4, 8);
    var line := "  * a";
    CursorMatch();
    CursorItem();
    CursorNonConforming();
    CursorNormal();
  }

  /** The list match of "  * a": two blanks, one star, text at 4. */
  lemma CursorMatch()
    ensures MatchList("  * a") == Some(ListMatch(2, 1, 4)) && Depth("  * a") == 1 && Body("  * a") == " a"
  {
    var line := "  * a";
    assert Lead(line) == 2 by { LeadAt(line, 2); }
    assert RunOf(line, '*', 2) == 1;
    assert Gap(line, 3) == 1;
  }

  /** The prefixes for depth one with four-space units. */
  lemma CursorItem()
    ensures var c := IndentConfig(true, 4, 8);
            ValidConfig(c) && Unit(c) == "    " && Item(c, 1, '*') == "    *" && NextItem(c, 1, false) == "\n    * "
  {
    var c := IndentConfig(true, 4, 8);
    assert Repeat(" ", 4) == "    ";
    assert Repeat("    ", 1) == "    ";
    assert Repeat("*", 1) == "*";
  }

  /** Two leading spaces are not a whole number of four-space units. */
  lemma CursorNonConforming()
    ensures !Conforms("  * a", IndentConfig(true, 4, 8))
  {
    var c := IndentConfig(true, 4, 8);
    var line := "  * a";
    CursorMatch();
    assert line[..2] == "  ";
    assert Without("  ", '\t') == "  ";
    assert Occurrences("  ", '\t') == 0;
    assert GuessIndent("  ", c).1 == 0;
  }

  /** The normal form of "  * a" and where the cursor after "a" ends up. */
  lemma CursorNormal()
    ensures var c := IndentConfig(true, 4, 8);
            ValidConfig(c) && MatchList("  * a").Some? &&
            Normal("  * a", c) == "    * a" && CursorAfter("  * a", 5, c) == 7
  {
    CursorMatch();
    CursorItem();
    CursorNonConforming();
  }
}
