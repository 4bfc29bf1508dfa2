/** The line parsers of plugin/jft/ExportLatex.py: comments, display
    math, itemize lists and headers.  The dispatch that offers each line to
    them is in `ExportLatex`.

    A parser's `parse`, `end` and `last` answer `False`, `True` or a string;
    `Reply` names the three.  As in `ExportInline`, the lines never contain
    a newline, so `.` in a pattern is modelled as matching any character. */
module LatexParsers {
  import opened Wrappers
  import opened Seqs
  import Regex
  import ExportInline

  /** Python's `False`, `True`, or a string to append to the output. */
  datatype Reply = Declined | Consumed | Emit(text: string)

  predicate AllSpace(s: string) {
    forall i :: 0 <= i < |s| ==> Regex.IsSpace(s[i])
  }

  /** The length of the leading blank run (what `^\s*` matches). */
  function Lead(s: string): (r: nat)
    ensures r <= |s| && (forall j :: 0 <= j < r ==> Regex.IsSpace(s[j])) && (r < |s| ==> !Regex.IsSpace(s[r]))
    ensures AllSpace(s[..r])
  {
    ExportInline.FirstSolidSpec(s);
    var r := ExportInline.FirstSolid(s);
    assert forall j :: 0 <= j < r ==> s[..r][j] == s[j];
    r
  }

  /** A blank prefix ended by a non-blank character, or by the end of the
      text, is the leading run. */
  lemma LeadAt(s: string, k: nat)
    requires k <= |s| && AllSpace(s[..k]) && (k < |s| ==> !Regex.IsSpace(s[k]))
    ensures Lead(s) == k
  {
    assert forall j :: 0 <= j < k ==> s[..k][j] == s[j];
  }

  /** `s[i..]` is `p` followed by `rest`. */
  lemma SuffixSplit(s: string, i: nat, p: string, rest: string)
    requires i <= |s| && s[i..] == p + rest
    ensures i + |p| <= |s| && s[i..i + |p|] == p && s[i + |p|..] == rest
  {
    assert s[i..][..|p|] == s[i..i + |p|];
    assert s[i..][|p|..] == s[i + |p|..];
  }

  /** Blank text then text that does not start blank: the run is the
      blank text. */
  lemma LeadConcat(w: string, t: string)
    requires AllSpace(w) && (|t| == 0 || !Regex.IsSpace(t[0]))
    ensures Lead(w + t) == |w|
  {
    var s := w + t;
    assert s[..|w|] == w;
    if |t| > 0 { assert s[|w|] == t[0]; }
    LeadAt(s, |w|);
  }

  /** The length of the run of `c` starting at `i`. */
  function RunOf(s: string, c: char, i: nat): (n: nat)
    requires i <= |s|
    ensures i + n <= |s| && (forall j :: i <= j < i + n ==> s[j] == c) && (i + n < |s| ==> s[i + n] != c)
    decreases |s| - i
  {
    if i < |s| && s[i] == c then 1 + RunOf(s, c, i + 1) else 0
  }

  /** The length of the blank run starting at `i`. */
  function Gap(s: string, i: nat): (n: nat)
    requires i <= |s|
    ensures i + n <= |s| && AllSpace(s[i..i + n]) && (i + n < |s| ==> !Regex.IsSpace(s[i + n]))
  {
    var n := Lead(s[i..]);
    assert s[i..][..n] == s[i..i + n];
    n
  }

  // ---------------------------------------------------------------------
  // ParserComment: `^(\s*)#(.*)`

  /** `ParserComment.parse`: a line whose first non-blank character is `#`
      becomes the same line with that `#` turned into `%`; any other line is
      declined. */
  function ParseComment(line: string): (r: Reply)
    ensures !r.Consumed?
    ensures r.Emit? <==> exists k :: 0 <= k < |line| && line[k] == '#' && AllSpace(line[..k])
    ensures forall k :: 0 <= k < |line| && line[k] == '#' && AllSpace(line[..k]) ==>
              r == Emit(line[..k] + "%" + line[k + 1..])
  {
    var k := Lead(line);
    forall j | 0 <= j < |line| && line[j] == '#' && AllSpace(line[..j]) ensures j == k {
      LeadAt(line, j);
    }
    if k < |line| && line[k] == '#' then Emit(line[..k] + "%" + line[k + 1..]) else Declined
  }

  /** Turning a comment line into LaTeX changes one character. */
  lemma CommentLine(w: string, t: string)
    requires AllSpace(w)
    ensures ParseComment(w + "#" + t) == Emit(w + "%" + t)
  {
    var s := w + "#" + t;
    assert s[..|w|] == w && s[|w|] == '#' && s[|w| + 1..] == t;
  }

  // ---------------------------------------------------------------------
  // ParserMath: `^\s*[$]([^$]*)[$]\s*$`

  /** `line` is blanks, a `$` at `i`, a body without `$`, a `$` at `j`, and
      blanks. */
  predicate MathShape(line: string, i: int, j: int) {
    0 <= i < j < |line| && AllSpace(line[..i]) && line[i] == '$' && line[j] == '$' &&
    ExportInline.Avoids(line, i + 1, j, '$') && AllSpace(line[j + 1..])
  }

  /** The display-math block for a body. */
  function Display(body: string): string {
    "\\begin{displaymath}\n" + body + "\n\\end{displaymath}"
  }

  /** `ParserMath.parse`: a line holding one `$…$` and blanks becomes a
      display-math block around the body; any other line is declined. */
  function ParseMath(line: string): (r: Reply)
    ensures !r.Consumed?
    ensures r.Emit? <==> exists i, j :: MathShape(line, i, j)
    ensures forall i, j :: MathShape(line, i, j) ==> r == Emit(Display(line[i + 1..j]))
  {
    var i := Lead(line);
    forall a, b | MathShape(line, a, b) ensures a == i && ExportInline.NextOf(line, '$', i + 1) == Some(b) {
      LeadAt(line, a);
    }
    if i < |line| && line[i] == '$' then
      match ExportInline.NextOf(line, '$', i + 1)
      case None => Declined
      case Some(j) =>
        if AllSpace(line[j + 1..]) then
          assert MathShape(line, i, j);
          Emit(Display(line[i + 1..j]))
        else Declined
    else Declined
  }

  /** A `$`-free body between dollars, blanks around, is displayed. */
  lemma MathLine(w1: string, body: string, w2: string)
    requires AllSpace(w1) && AllSpace(w2) && '$' !in body
    ensures ParseMath(w1 + "$" + body + "$" + w2) == Emit(Display(body))
  {
    var s := w1 + "$" + body + "$" + w2;
    var i, j := |w1|, |w1| + 1 + |body|;
    assert s[..i] == w1 && s[i + 1..j] == body && s[j + 1..] == w2;
    assert ExportInline.Avoids(s, i + 1, j, '$') by {
      forall k | i + 1 <= k < j ensures s[k] != '$' { assert s[k] == body[k - i - 1]; }
    }
    assert MathShape(s, i, j);
  }

  // ---------------------------------------------------------------------
  // ParserList: `^\s*(\*+)\s*(.*)`, with the itemize nesting counter

  function Tabs(n: nat): string {
    Repeat("\t", n)
  }

  function BeginLine(depth: nat): string {
    Tabs(depth) + "\\begin{itemize}"
  }

  function EndLine(depth: nat): string {
    Tabs(depth) + "\\end{itemize}"
  }

  /** The itemize environments opened going from `from` up to `to`, one per
      level, outermost first. */
  function Opens(from: nat, to: nat): (r: seq<string>)
    ensures |r| == if from < to then to - from else 0
    ensures forall i :: 0 <= i < |r| ==> r[i] == BeginLine(from + i)
  {
    seq(if from < to then to - from else 0, i requires 0 <= i => BeginLine(from + i))
  }

  /** The itemize environments closed going from `from` down to `to`, one
      per level, innermost first. */
  function Closes(from: nat, to: nat): (r: seq<string>)
    ensures |r| == if from > to then from - to else 0
    ensures forall i :: 0 <= i < |r| ==> r[i] == EndLine(from - 1 - i)
  {
    seq(if from > to then from - to else 0, i requires 0 <= i < from - to => EndLine(from - 1 - i))
  }

  /** Each line followed by a newline. */
  function Unlines(ls: seq<string>): string {
    if |ls| == 0 then "" else ls[0] + "\n" + Unlines(ls[1..])
  }

  /** `_push_level(level)`: while below `level`, open one more itemize;
      returns the text and the new level. */
  function PushLevel(cur: nat, level: nat): (r: (string, nat))
    ensures r.1 == if cur < level then level else cur
    ensures r.0 == Unlines(Opens(cur, level))
    decreases level - cur
  {
    if cur < level then
      var rest := PushLevel(cur + 1, level);
      assert Opens(cur, level)[1..] == Opens(cur + 1, level);
      (BeginLine(cur) + "\n" + rest.0, rest.1)
    else ("", cur)
  }

  /** `_pop_level(level)`: while above `level`, close one itemize. */
  function PopLevel(cur: nat, level: nat): (r: (string, nat))
    ensures r.1 == if cur > level then level else cur
    ensures r.0 == Unlines(Closes(cur, level))
    decreases cur
  {
    if cur > level then
      var rest := PopLevel(cur - 1, level);
      assert Closes(cur, level)[1..] == Closes(cur - 1, level);
      (EndLine(cur - 1) + "\n" + rest.0, rest.1)
    else ("", cur)
  }

  /** The pieces of a list line: leading blanks, the run of `*`, the
      blanks after it, and where the item text starts. */
  datatype ListMatch = ListMatch(lead: nat, stars: nat, text: nat)

  function MatchList(line: string): (r: Option<ListMatch>)
    ensures r.Some? <==> Lead(line) < |line| && line[Lead(line)] == '*'
    ensures r.Some? ==> r.value.lead == Lead(line) && r.value.stars >= 1 &&
                        r.value.lead + r.value.stars <= r.value.text <= |line| &&
                        (forall j :: r.value.lead <= j < r.value.lead + r.value.stars ==> line[j] == '*') &&
                        AllSpace(line[r.value.lead + r.value.stars..r.value.text]) &&
                        (r.value.text < |line| ==> !Regex.IsSpace(line[r.value.text]))
  {
    var a := Lead(line);
    if a < |line| && line[a] == '*' then
      var n := RunOf(line, '*', a);
      Some(ListMatch(a, n, a + n + Gap(line, a + n)))
    else None
  }

  /** `ParserList.parse` from nesting level `level`: a line of leading
      blanks and `k >= 1` stars opens or closes itemize environments until
      the level is `k` (one per level gained or lost), then emits the
      `\item` at depth `k`; the new level is `k`.  Other lines are declined
      and leave the level alone. */
  function ParseList(level: nat, line: string): (r: (Reply, nat))
    ensures !r.0.Consumed?
    ensures r.0.Emit? <==> MatchList(line).Some?
    ensures r.0.Declined? ==> r.1 == level
    ensures r.0.Emit? ==>
              var m := MatchList(line).value;
              r.1 == m.stars &&
              r.0.text == Unlines(Opens(level, m.stars)) + Unlines(Closes(level, m.stars)) +
                          Tabs(m.stars) + "\\item " + line[m.text..]
  {
    match MatchList(line)
    case None => (Declined, level)
    case Some(m) =>
      var push := PushLevel(level, m.stars);
      var pop := PopLevel(push.1, m.stars);
      assert Closes(push.1, m.stars) == Closes(level, m.stars);
      (Emit(push.0 + pop.0 + Tabs(m.stars) + "\\item " + line[m.text..]), pop.1)
  }

  /** An item one level deeper opens exactly one itemize. */
  lemma ListDeeper(level: nat, w: string, g: string, t: string)
    requires AllSpace(w) && AllSpace(g) && (|t| == 0 || !Regex.IsSpace(t[0]))
    requires |g| > 0 || |t| == 0 || t[0] != '*'
    ensures ParseList(level, w + Repeat("*", level + 1) + g + t) ==
              (Emit(BeginLine(level) + "\n" + Tabs(level + 1) + "\\item " + t), level + 1)
  {
    var line := w + Repeat("*", level + 1) + g + t;
    ListLine(level + 1, w, g, t);
    assert Unlines(Opens(level, level + 1)) == BeginLine(level) + "\n" by {
      assert Opens(level, level + 1) == [BeginLine(level)];
    }
    assert Unlines(Closes(level, level + 1)) == "" by {
      assert Closes(level, level + 1) == [];
    }
    var x := BeginLine(level) + "\n";
    assert x + "" + Tabs(level + 1) + "\\item " + t == x + Tabs(level + 1) + "\\item " + t;
  }

  /** An item at the current level opens and closes nothing. */
  lemma ListSame(level: nat, w: string, g: string, t: string)
    requires level > 0 && AllSpace(w) && AllSpace(g) && (|t| == 0 || !Regex.IsSpace(t[0]))
    requires |g| > 0 || |t| == 0 || t[0] != '*'
    ensures ParseList(level, w + Repeat("*", level) + g + t) == (Emit(Tabs(level) + "\\item " + t), level)
  {
    var line := w + Repeat("*", level) + g + t;
    ListLine(level, w, g, t);
    ParseListOf(level, line, ListMatch(|w|, level, |w| + level + |g|), t);
    assert Unlines(Opens(level, level)) == "" by { assert Opens(level, level) == []; }
    assert Unlines(Closes(level, level)) == "" by { assert Closes(level, level) == []; }
    EmptyFront(Tabs(level), "\\item ", t);
  }

  /** What `ParseList` emits, given what `MatchList` finds. */
  lemma ParseListOf(level: nat, line: string, m: ListMatch, t: string)
    requires MatchList(line) == Some(m) && m.text <= |line| && line[m.text..] == t
    ensures ParseList(level, line) ==
              (Emit(Unlines(Opens(level, m.stars)) + Unlines(Closes(level, m.stars)) + Tabs(m.stars) + "\\item " + t), m.stars)
  {
  }

  /** Helper lemma on string concatenation: two empty strings in front
      change nothing. */
  lemma EmptyFront(a: string, b: string, c: string)
    ensures "" + "" + a + b + c == a + b + c
  {
  }

  /** The pieces `MatchList` finds in a list line built from them. */
  lemma ListLine(k: nat, w: string, g: string, t: string)
    requires k >= 1 && AllSpace(w) && AllSpace(g) && (|t| == 0 || !Regex.IsSpace(t[0]))
    requires |g| > 0 || |t| == 0 || t[0] != '*'
    ensures var s := w + Repeat("*", k) + g + t;
            MatchList(s) == Some(ListMatch(|w|, k, |w| + k + |g|)) && s[|w| + k + |g|..] == t
  {
    RepeatAll('*', k);
    var st := Repeat("*", k);
    assert w + st + g + t == w + (st + (g + t));
    ListPieces(w, st, g, t);
  }

  lemma ListPieces(w: string, st: string, g: string, t: string)
    requires |st| >= 1 && forall j :: 0 <= j < |st| ==> st[j] == '*'
    requires AllSpace(w) && AllSpace(g) && (|t| == 0 || !Regex.IsSpace(t[0]))
    requires |g| > 0 || |t| == 0 || t[0] != '*'
    ensures var s := w + (st + (g + t));
            MatchList(s) == Some(ListMatch(|w|, |st|, |w| + |st| + |g|)) && s[|w| + |st| + |g|..] == t
  {
    var s := w + (st + (g + t));
    PiecesLead(w, st, g, t);
    PiecesRun(w, st, g, t);
    PiecesGap(w, st, g, t);
    MatchListAt(s, |w|, |st|, |g|);
  }

  lemma PiecesLead(w: string, st: string, g: string, t: string)
    requires |st| >= 1 && st[0] == '*' && AllSpace(w)
    ensures var s := w + (st + (g + t)); |w| < |s| && Lead(s) == |w| && s[|w|] == '*'
  {
    var s := w + (st + (g + t));
    assert s[|w|] == st[0];
    LeadConcat(w, st + (g + t));
  }

  lemma PiecesRun(w: string, st: string, g: string, t: string)
    requires |st| >= 1 && forall j :: 0 <= j < |st| ==> st[j] == '*'
    requires |g| > 0 || |t| == 0 || t[0] != '*'
    requires AllSpace(g)
    ensures var s := w + (st + (g + t)); |w| + |st| <= |s| && RunOf(s, '*', |w|) == |st| && s[|w| + |st|..] == g + t
  {
    var s := w + (st + (g + t));
    assert |g + t| == 0 || (g + t)[0] != '*' by {
      if |g| > 0 { assert (g + t)[0] == g[0] && Regex.IsSpace(g[0]); }
    }
    ListRun(s, w, st, g + t);
  }

  lemma PiecesGap(w: string, st: string, g: string, t: string)
    requires AllSpace(g) && (|t| == 0 || !Regex.IsSpace(t[0]))
    ensures var s := w + (st + (g + t)); |w| + |st| + |g| <= |s| && Gap(s, |w| + |st|) == |g| && s[|w| + |st| + |g|..] == t
  {
    var s := w + (st + (g + t));
    assert s[|w| + |st|..] == g + t;
    ListGap(s, |w| + |st|, g, t);
  }

  lemma MatchListAt(s: string, a: nat, n: nat, m: nat)
    requires a < |s| && Lead(s) == a && s[a] == '*' && a + n <= |s| && RunOf(s, '*', a) == n && Gap(s, a + n) == m
    ensures MatchList(s) == Some(ListMatch(a, n, a + n + m))
  {
  }

  lemma ListRun(s: string, w: string, st: string, rest: string)
    requires s == w + (st + rest) && |st| > 0 && forall j :: 0 <= j < |st| ==> st[j] == '*'
    requires |rest| == 0 || rest[0] != '*'
    ensures RunOf(s, '*', |w|) == |st| && s[|w| + |st|..] == rest
  {
    SuffixSplit(s, |w|, st, rest);
    StarRun(s, |w|, st, rest);
  }

  lemma ListGap(s: string, i: nat, g: string, t: string)
    requires i <= |s| && s[i..] == g + t && AllSpace(g) && (|t| == 0 || !Regex.IsSpace(t[0]))
    ensures Gap(s, i) == |g| && s[i + |g|..] == t
  {
    GapConcat(s, i, g, t);
  }

  /** A run of `k` stars not followed by a star. */
  lemma StarRun(s: string, i: nat, st: string, rest: string)
    requires i + |st| <= |s| && s[i..i + |st|] == st && s[i + |st|..] == rest
    requires |st| > 0 && forall j :: 0 <= j < |st| ==> st[j] == '*'
    requires |rest| == 0 || rest[0] != '*'
    ensures RunOf(s, '*', i) == |st|
  {
    StarRunOf(s, i, st, rest);
  }

  /** `RunOf` counts a run of one character that something else ends. */
  lemma StarRunOf(s: string, i: nat, st: string, rest: string)
    requires i + |st| <= |s| && s[i..i + |st|] == st && s[i + |st|..] == rest
    requires |st| > 0 && forall j :: 0 <= j < |st| ==> st[j] == st[0]
    requires |rest| == 0 || rest[0] != st[0]
    ensures RunOf(s, st[0], i) == |st|
  {
    assert forall j :: i <= j < i + |st| ==> s[j] == s[i..i + |st|][j - i];
    if |rest| > 0 { assert s[i + |st|] == rest[0]; }
  }

  /** Every character of `Repeat([c], n)` is `c`. */
  lemma {:induction false} RepeatAll(c: char, n: nat)
    ensures |Repeat([c], n)| == n && forall j :: 0 <= j < n ==> Repeat([c], n)[j] == c
    decreases n
  {
    if n > 0 { RepeatAll(c, n - 1); }
  }

  /** The number of tabs in a line's leading blanks. */
  function IndentTabs(line: string): nat {
    Occurrences(line[..Lead(line)], '\t')
  }

  /** `ParserList.end(line)`: a line indented by a different number of tabs
      than the current level closes every open itemize (the reply may be
      empty text, which still counts as an answer); a line at the current
      level keeps the list going. */
  function EndList(level: nat, line: string): (r: (Reply, nat))
    ensures IndentTabs(line) == level <==> r.0.Declined?
    ensures r.0.Declined? ==> r.1 == level
    ensures r.0.Emit? ==> r.1 == 0 && r.0.text == Unlines(Closes(level, 0))
    ensures !r.0.Consumed?
  {
    if IndentTabs(line) != level then (Emit(PopLevel(level, 0).0), 0) else (Declined, level)
  }

  /** `ParserList.last()`: close every open itemize. */
  function LastList(level: nat): (r: (Reply, nat))
    ensures r.1 == 0
    ensures r.0 == Emit(Unlines(Closes(level, 0)))
    ensures |Closes(level, 0)| == level
  {
    (Emit(PopLevel(level, 0).0), 0)
  }

  // ---------------------------------------------------------------------
  // ParserHeader: `^\s*(%+)\s*(.*)$` and `^\s*{{\s*title\s*:\s*(.*?)}}\s*$`

  /** The header parser's `_level` and `_output`. */
  datatype HeaderState = HeaderState(level: nat, output: string)

  /** The length of the trailing blank run. */
  function Trail(s: string): (n: nat)
    ensures n <= |s| && AllSpace(s[|s| - n..]) && (n < |s| ==> !Regex.IsSpace(s[|s| - n - 1]))
  {
    if |s| == 0 || !Regex.IsSpace(s[|s| - 1]) then 0
    else
      var n := Trail(s[..|s| - 1]);
      assert s[|s| - 1 - n..|s| - 1] == s[..|s| - 1][|s| - 1 - n..];
      assert s[|s| - (n + 1)..] == s[|s| - 1 - n..|s| - 1] + [s[|s| - 1]];
      n + 1
  }

  /** `s` without its leading blanks. */
  function Skip(s: string): (r: string)
    ensures |r| <= |s|
  {
    s[Lead(s)..]
  }

  /** The title of a `{{title: …}}` tag: after `{{`, `title` and `:` (each
      with optional blanks around), the text up to the `}}` that only
      blanks follow, leading blanks dropped. */
  function TitleOf(s: string): (r: Option<string>)
    ensures r.Some? ==> |r.value| + 9 <= |s|
  {
    var s0 := Skip(s);
    if |s0| >= 2 && s0[..2] == "{{" then TitleKey(Skip(s0[2..])) else None
  }

  function TitleKey(s: string): (r: Option<string>)
    ensures r.Some? ==> |r.value| + 7 <= |s|
  {
    if |s| >= 5 && s[..5] == "title" then TitleColon(Skip(s[5..])) else None
  }

  function TitleColon(s: string): (r: Option<string>)
    ensures r.Some? ==> |r.value| + 2 <= |s|
  {
    if |s| >= 1 && s[0] == ':' then TitleBody(Skip(s[1..])) else None
  }

  /** The text before the `}}` that only blanks follow. */
  function TitleBody(s: string): (r: Option<string>)
    ensures r.Some? ==> |r.value| + 2 <= |s|
  {
    var e := |s| - Trail(s);
    if e >= 2 && s[e - 2..e] == "}}" then Some(s[..e - 2]) else None
  }

  /** Skipping a blank prefix. */
  lemma SkipConcat(w: string, t: string)
    requires AllSpace(w) && (|t| == 0 || !Regex.IsSpace(t[0]))
    ensures Skip(w + t) == t
  {
    LeadConcat(w, t);
    assert (w + t)[|w|..] == t;
  }

  /** Helper lemma on string concatenation: a literal prefix and what
      follows it. */
  lemma LiteralPrefix(p: string, r: string)
    ensures |p + r| >= |p| && (p + r)[..|p|] == p && (p + r)[|p|..] == r
  {
  }

  lemma TitleBodyOf(t: string, w: string)
    requires AllSpace(w)
    ensures TitleBody(t + "}}" + w) == Some(t)
  {
    var body := t + "}}";
    var s := body + w;
    assert body[|body| - 1] == '}';
    TrailConcat(body, w);
    assert s[..|body|] == body;
    assert s[|body| - 2..|body|] == "}}";
    assert s[..|body| - 2] == t;
  }

  /** Leading blanks of a concatenation: blanks then non-blank text. */
  lemma GapConcat(s: string, i: nat, w: string, t: string)
    requires i <= |s| && s[i..] == w + t && AllSpace(w) && (|t| == 0 || !Regex.IsSpace(t[0]))
    ensures Gap(s, i) == |w| && s[i + |w|..] == t
  {
    LeadConcat(w, t);
    SuffixSplit(s, i, w, t);
  }

  /** Trailing blanks of a concatenation: text ending non-blank then blanks. */
  lemma {:induction false} TrailConcat(t: string, w: string)
    requires AllSpace(w) && |t| > 0 && !Regex.IsSpace(t[|t| - 1])
    ensures Trail(t + w) == |w|
    decreases |w|
  {
    if |w| > 0 {
      var s := t + w;
      assert s[..|s| - 1] == t + w[..|w| - 1];
      assert s[|s| - 1] == w[|w| - 1];
      TrailConcat(t, w[..|w| - 1]);
    } else {
      assert t + w == t;
    }
  }

  /** A title tag built from its pieces yields its text. */
  lemma TitleTag(w1: string, w2: string, w3: string, w4: string, t: string, w5: string)
    requires AllSpace(w1) && AllSpace(w2) && AllSpace(w3) && AllSpace(w4) && AllSpace(w5)
    requires |t| == 0 || !Regex.IsSpace(t[0])
    ensures TitleOf(w1 + ("{{" + (w2 + ("title" + (w3 + (":" + (w4 + (t + "}}" + w5)))))))) == Some(t)
  {
    var r0 := w2 + ("title" + (w3 + (":" + (w4 + (t + "}}" + w5)))));
    SkipConcat(w1, "{{" + r0);
    LiteralPrefix("{{", r0);
    TitleKeyTag(w2, w3, w4, t, w5);
  }

  lemma TitleKeyTag(w2: string, w3: string, w4: string, t: string, w5: string)
    requires AllSpace(w2) && AllSpace(w3) && AllSpace(w4) && AllSpace(w5)
    requires |t| == 0 || !Regex.IsSpace(t[0])
    ensures TitleKey(Skip(w2 + ("title" + (w3 + (":" + (w4 + (t + "}}" + w5))))))) == Some(t)
  {
    var r2 := w3 + (":" + (w4 + (t + "}}" + w5)));
    SkipConcat(w2, "title" + r2);
    LiteralPrefix("title", r2);
    TitleColonTag(w3, w4, t, w5);
  }

  lemma TitleColonTag(w3: string, w4: string, t: string, w5: string)
    requires AllSpace(w3) && AllSpace(w4) && AllSpace(w5)
    requires |t| == 0 || !Regex.IsSpace(t[0])
    ensures TitleColon(Skip(w3 + (":" + (w4 + (t + "}}" + w5))))) == Some(t)
  {
    var r4 := w4 + (t + "}}" + w5);
    SkipConcat(w3, ":" + r4);
    LiteralPrefix(":", r4);
    if |t| > 0 {
      SkipConcat(w4, t + "}}" + w5);
    } else {
      assert t + "}}" + w5 == "}}" + w5;
      SkipConcat(w4, "}}" + w5);
    }
    TitleBodyOf(t, w5);
  }

  /** `level_to_name`: level 2 is a subsection, 3 a subsubsection, and
      anything else a section. */
  function LevelToName(level: nat): (r: string)
    ensures level == 2 ==> r == "subsection"
    ensures level == 3 ==> r == "subsubsection"
    ensures level != 2 && level != 3 ==> r == "section"
  {
    if level == 2 then "subsection" else if level == 3 then "subsubsection" else "section"
  }

  /** The text of a header line: what follows the `%` signs and the
      blanks after them. */
  function HeaderText(line: string): string {
    var a := Lead(line);
    var n := RunOf(line, '%', a);
    line[a + n + Gap(line, a + n)..]
  }

  /** `ParserHeader.parse`: a line of `%` signs (after blanks) is always
      consumed.  At level 1 a `{{title: …}}` tag sets the document title
      (returned) and leaves the state alone; otherwise the header text is
      added, with a blank, to the pending header and the level becomes the
      number of signs.  Other lines are declined.

      The source's branch for a continued header of another level is not
      modelled: the export always passes `continuation` as false (it
      compares a parser with a list), so that branch never runs. */
  function ParseHeader(st: HeaderState, line: string): (r: (Reply, HeaderState, Option<string>))
    ensures !r.0.Emit?
    ensures r.0.Declined? <==> !(Lead(line) < |line| && line[Lead(line)] == '%')
    ensures r.0.Declined? ==> r.1 == st && r.2.None?
    ensures r.2.Some? ==> r.1 == st && r.2 == TitleOf(HeaderText(line))
    ensures r.0.Consumed? && r.2.None? ==>
              r.1.level >= 1 && r.1.output == st.output + HeaderText(line) + " "
  {
    var a := Lead(line);
    if a < |line| && line[a] == '%' then
      var n := RunOf(line, '%', a);
      var rest := HeaderText(line);
      var title := TitleOf(rest);
      if n == 1 && title.Some? then (Consumed, st, title)
      else (Consumed, HeaderState(n, st.output + rest + " "), None)
    else (Declined, st, None)
  }

  /** `ParserHeader.end(line)`: with a pending header, emit it as
      `\section{…}` (or the sub-level name) and empty the text, keeping the
      level; before any header, just answer `True`. */
  function EndHeader(st: HeaderState): (r: (Reply, HeaderState))
    ensures st.level == 0 ==> r == (Consumed, st)
    ensures st.level > 0 ==> r.0 == Emit("\\" + LevelToName(st.level) + "{" + st.output + "}")
    ensures st.level > 0 ==> r.1 == HeaderState(st.level, "")
  {
    if st.level == 0 then (Consumed, st)
    else (Emit("\\" + LevelToName(st.level) + "{" + st.output + "}"), st.(output := ""))
  }

  /** Two header lines in a row make one header whose text is both
      lines' text. */
  lemma HeadersJoin(st: HeaderState, x: string, y: string)
    requires |x| > 0 && !Regex.IsSpace(x[0]) && x[0] != '%'
    requires |y| > 0 && !Regex.IsSpace(y[0]) && y[0] != '%'
    ensures var s1 := ParseHeader(st, "%% " + x).1;
            var s2 := ParseHeader(s1, "%% " + y).1;
            s2 == HeaderState(2, st.output + x + " " + y + " ") &&
            EndHeader(s2).0 == Emit("\\subsection{" + st.output + x + " " + y + " " + "}")
  {
    HeaderLine(st, x);
    HeaderLine(ParseHeader(st, "%% " + x).1, y);
  }

  /** `ParseHeader` on a line whose pieces are known. */
  lemma HeaderAt(st: HeaderState, line: string, n: nat, rest: string)
    requires Lead(line) == 0 && |line| > 0 && line[0] == '%' && RunOf(line, '%', 0) == n && HeaderText(line) == rest
    ensures n == 1 && TitleOf(rest).Some? ==> ParseHeader(st, line) == (Consumed, st, TitleOf(rest))
    ensures !(n == 1 && TitleOf(rest).Some?) ==>
              ParseHeader(st, line) == (Consumed, HeaderState(n, st.output + rest + " "), None)
  {
  }

  /** A title tag that does not start blank starts with `{`. */
  lemma TitleStart(x: string)
    requires |x| > 0 && !Regex.IsSpace(x[0]) && TitleOf(x).Some?
    ensures x[0] == '{'
  {
    assert Lead(x) == 0;
    assert Skip(x) == x;
    assert x[..2][0] == x[0];
  }

  /** A line `%% x` adds `x` to a level-2 header. */
  lemma HeaderLine(st: HeaderState, x: string)
    requires |x| > 0 && !Regex.IsSpace(x[0]) && x[0] != '%'
    ensures ParseHeader(st, "%% " + x) == (Consumed, HeaderState(2, st.output + x + " "), None)
  {
    var s := "%% " + x;
    assert Lead(s) == 0 by { assert s[0] == '%'; }
    assert RunOf(s, '%', 0) == 2 by {
      assert s[..2] == "%%" && s[2..] == " " + x;
      StarRunOf(s, 0, "%%", " " + x);
    }
    assert Gap(s, 2) == 1 && s[3..] == x by {
      assert s[2..] == " " + x;
      GapConcat(s, 2, " ", x);
    }
  }

  /** A line `% x`, where `x` is a title tag, names the document and
      leaves the header state alone. */
  lemma TitleLine(st: HeaderState, x: string)
    requires |x| > 0 && !Regex.IsSpace(x[0]) && TitleOf(x).Some?
    ensures ParseHeader(st, "% " + x) == (Consumed, st, TitleOf(x))
  {
    TitleStart(x);
    OneSignLine(x);
    HeaderAt(st, "% " + x, 1, x);
  }

  /** The pieces of a line `% x`. */
  lemma OneSignLine(x: string)
    requires |x| > 0 && !Regex.IsSpace(x[0]) && x[0] != '%'
    ensures var s := "% " + x;
            Lead(s) == 0 && |s| > 0 && s[0] == '%' && RunOf(s, '%', 0) == 1 && HeaderText(s) == x
  {
    var s := "% " + x;
    assert s == "%" + (" " + x) by { Regroup('%', ' ', x); }
    LiteralPrefix("%", " " + x);
    assert Lead(s) == 0 by { assert s[0] == '%'; }
    assert RunOf(s, '%', 0) == 1 by {
      StarRunOf(s, 0, "%", " " + x);
    }
    assert Gap(s, 1) == 1 && s[2..] == x by {
      GapConcat(s, 1, " ", x);
    }
  }

  /** Helper lemma on string concatenation: regrouping two leading
      characters. */
  lemma Regroup(a: char, b: char, x: string)
    ensures [a, b] + x == [a] + ([b] + x)
  {
  }
}
