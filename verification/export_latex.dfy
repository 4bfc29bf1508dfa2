/** The `ExportLatex` class of plugin/jft/ExportLatex.py: the output file
    names, and `export`, which splits the document into lines, rewrites
    each line inline, offers it to the parsers in a fixed order, and
    assembles the LaTeX document.

    Writing the file, listing the `.bib` files next to the document (they
    are a parameter here) and running `rubber` are left out. */
module ExportLatex {
  import opened Wrappers
  import opened Seqs
  import ExportInline
  import opened LatexParsers

  // ---------------------------------------------------------------------
  // File names: `^(.*)\.[^/.]*$`

  /** `filename_ext(ext)`: when the last `.` of the name has no `/` after
      it, the part before it (the stem) followed by `.ext`, or just the
      stem when `ext` is empty; otherwise the whole name followed by
      `.ext`. */
  function FilenameExt(f: string, ext: string): string {
    var d := ExportInline.LastOf(f, '.');
    if d >= 0 && ExportInline.Avoids(f, d + 1, |f|, '/') then
      if ext != "" then f[..d] + "." + ext else f[..d]
    else f + "." + ext
  }

  /** `filename_tex`. */
  function FilenameTex(f: string): string {
    FilenameExt(f, "tex")
  }

  /** `filename_pdf`. */
  function FilenamePdf(f: string): string {
    FilenameExt(f, "pdf")
  }

  /** A name ending in `.e`, where `e` has no `.` or `/`, has its
      extension replaced (or dropped, for an empty `ext`). */
  lemma ReplacesExtension(stem: string, e: string, ext: string)
    requires '.' !in e && '/' !in e
    ensures FilenameExt(stem + "." + e, ext) == if ext != "" then stem + "." + ext else stem
  {
    var g := stem + "." + e;
    assert g[|stem|] == '.';
    assert forall k :: |stem| + 1 <= k < |g| ==> g[k] == e[k - |stem| - 1];
    ExportInline.LastOfSpec(g, '.');
    assert ExportInline.LastOf(g, '.') == |stem|;
    assert g[..|stem|] == stem;
  }

  /** A name without any `.` gets the extension appended. */
  lemma AppendsExtension(f: string, ext: string)
    requires '.' !in f
    ensures FilenameExt(f, ext) == f + "." + ext
  {
    assert ExportInline.LastOf(f, '.') == -1;
  }

  /** The PDF name of the TeX file is the PDF name of the document. */
  lemma PdfOfTex(f: string)
    ensures FilenamePdf(FilenameTex(f)) == FilenamePdf(f)
  {
    var d := ExportInline.LastOf(f, '.');
    if d >= 0 && ExportInline.Avoids(f, d + 1, |f|, '/') {
      ReplacesExtension(f[..d], "tex", "pdf");
    } else {
      ReplacesExtension(f, "tex", "pdf");
    }
  }

  // ---------------------------------------------------------------------
  // `str.split` and `str.join`

  /** `s.split(c)`: the pieces between the separators. */
  function Split(s: string, c: char): (r: seq<string>)
    ensures |r| >= 1 && forall i :: 0 <= i < |r| ==> c !in r[i]
    decreases |s|
  {
    match ExportInline.NextOf(s, c, 0)
    case None => [s]
    case Some(k) => [s[..k]] + Split(s[k + 1..], c)
  }

  /** `sep.join(ls)`. */
  function Join(ls: seq<string>, sep: string): string {
    if |ls| == 0 then "" else if |ls| == 1 then ls[0] else ls[0] + sep + Join(ls[1..], sep)
  }

  /** Splitting and joining again gives back the text. */
  lemma {:induction false} JoinSplit(s: string, c: char)
    ensures Join(Split(s, c), [c]) == s
    decreases |s|
  {
    match ExportInline.NextOf(s, c, 0)
    case None =>
    case Some(k) =>
      var rest := Split(s[k + 1..], c);
      assert Split(s, c) == [s[..k]] + rest;
      JoinSplit(s[k + 1..], c);
      JoinCons(s[..k], rest, [c]);
      assert s == s[..k] + [c] + s[k + 1..];
  }

  /** Joining a piece in front of at least one more puts the separator
      between them. */
  lemma JoinCons(x: string, ys: seq<string>, sep: string)
    requires |ys| >= 1
    ensures Join([x] + ys, sep) == x + sep + Join(ys, sep)
  {
    assert ([x] + ys)[1..] == ys;
  }

  /** Joining pieces that do not hold the separator and splitting again
      gives back the pieces. */
  lemma {:induction false} SplitJoin(ls: seq<string>, c: char)
    requires |ls| >= 1 && forall i :: 0 <= i < |ls| ==> c !in ls[i]
    ensures Split(Join(ls, [c]), c) == ls
    decreases |ls|
  {
    if |ls| == 1 {
      SplitWhole(ls[0], c);
    } else {
      JoinCons(ls[0], ls[1..], [c]);
      SplitFirst(ls[0], c, Join(ls[1..], [c]));
      SplitJoin(ls[1..], c);
      assert ls == [ls[0]] + ls[1..];
    }
  }

  /** Text without the separator splits into itself. */
  lemma SplitWhole(x: string, c: char)
    requires c !in x
    ensures Split(x, c) == [x]
  {
    assert ExportInline.NextOf(x, c, 0).None?;
  }

  /** A separator-free piece, the separator, and the rest split into the
      piece followed by the rest's pieces. */
  lemma SplitFirst(x: string, c: char, rest: string)
    requires c !in x
    ensures Split(x + [c] + rest, c) == [x] + Split(rest, c)
  {
    var s := x + [c] + rest;
    assert s[|x|] == c;
    assert forall k :: 0 <= k < |x| ==> s[k] == x[k];
    assert ExportInline.NextOf(s, c, 0) == Some(|x|);
    assert s[..|x|] == x;
    assert s[|x| + 1..] == rest;
  }

  // ---------------------------------------------------------------------
  // The dispatch of `export`

  /** The five parsers of `export`, in the order they are offered a line. */
  datatype ParserId = PComment | PMath | PList | PHeader | PBase

  const Parsers: seq<ParserId> := [PComment, PMath, PList, PHeader, PBase]

  /** The state `export` keeps: the output lines, the title, whether a
      citation was seen, the list and header parsers' state, and the
      parsers that have claimed lines since they were last ended
      (`last_parser`). */
  datatype Exporter = Exporter(out: seq<string>, title: string, citations: bool,
                               level: nat, header: HeaderState, last: seq<ParserId>)

  const Start: Exporter := Exporter([], "", false, 0, HeaderState(0, ""), [])

  /** What the dispatch keeps true: no parser is listed twice, an open
      itemize means the list parser is listed, and pending header text
      means the header parser is listed (so that its `end` will emit it). */
  predicate Inv(ex: Exporter) {
    NoDup(ex.last) &&
    (ex.level > 0 ==> PList in ex.last) &&
    (ex.header.level == 0 ==> ex.header.output == "") &&
    (ex.header.output != "" ==> PHeader in ex.last)
  }

  /** `parser.parse(line, parser == last_parser)`; the second argument is
      always false, since a parser never equals a list. */
  function Parse(ex: Exporter, p: ParserId, line: string): (r: (Reply, Exporter))
    ensures r.0.Declined? ==> r.1 == ex
    ensures r.1.out == ex.out && r.1.last == ex.last && r.1.citations == ex.citations
    ensures p == PBase ==> r.0 == Emit(line)
    ensures p != PHeader ==> r.1.header == ex.header && r.1.title == ex.title
    ensures p != PList ==> r.1.level == ex.level
  {
    match p
    case PComment => (ParseComment(line), ex)
    case PMath => (ParseMath(line), ex)
    case PList =>
      var (rep, lv) := ParseList(ex.level, line);
      (rep, ex.(level := lv))
    case PHeader =>
      var (rep, st, t) := ParseHeader(ex.header, line);
      (rep, ex.(header := st, title := if t.Some? then t.value else ex.title))
    case PBase => (Emit(line), ex)
  }

  /** `parser.end(line)`; only the list parser can decline to end. */
  function End(ex: Exporter, p: ParserId, line: string): (r: (Reply, Exporter))
    ensures r.0.Declined? <==> p == PList && IndentTabs(line) == ex.level
    ensures r.1.out == ex.out && r.1.last == ex.last && r.1.citations == ex.citations && r.1.title == ex.title
    ensures p == PList && !r.0.Declined? ==> r.1.level == 0
    ensures p == PHeader && ex.header.level > 0 ==> r.1.header.output == ""
    ensures p != PList ==> r.1.level == ex.level
    ensures p != PHeader ==> r.1.header == ex.header
    ensures p == PHeader ==> r.1.header.level == ex.header.level
  {
    match p
    case PList =>
      var (rep, lv) := EndList(ex.level, line);
      (rep, ex.(level := lv))
    case PHeader =>
      var (rep, st) := EndHeader(ex.header);
      (rep, ex.(header := st))
    case _ => (Consumed, ex)
  }

  /** `self.append(x)`: strings are added to the output, `True` is not. */
  function Append(out: seq<string>, rep: Reply): (r: seq<string>)
    ensures Extends(r, out)
    ensures rep.Emit? ==> |r| > 0 && r[|r| - 1] == rep.text
  {
    if rep.Emit? then out + [rep.text] else out
  }

  /** `a` starts with `b`: output is only ever added to. */
  predicate Extends(a: seq<string>, b: seq<string>) {
    |a| >= |b| && a[..|b|] == b
  }

  lemma ExtendsTrans(a: seq<string>, b: seq<string>, c: seq<string>)
    requires Extends(a, b) && Extends(b, c)
    ensures Extends(a, c)
  {
    assert a[..|c|] == a[..|b|][..|c|];
  }

  /** What each parser would answer to the line, in trial order.  A parser
      that declines leaves the state alone, so asking all of them and keeping
      the first acceptance is the same as stopping at it. */
  function Replies(ex: Exporter, line: string): (rs: seq<(Reply, Exporter)>)
    ensures |rs| == |Parsers|
    ensures forall j :: 0 <= j < |rs| ==> rs[j] == Parse(ex, Parsers[j], line)
  {
    seq(|Parsers|, j requires 0 <= j < |Parsers| => Parse(ex, Parsers[j], line))
  }

  /** The position of the first accepting reply from `i` on, or the last
      position when every reply declines. */
  function Pick(rs: seq<(Reply, Exporter)>, i: nat): (k: nat)
    requires i < |rs|
    ensures i <= k < |rs|
    decreases |rs| - i
  {
    if !rs[i].0.Declined? || i == |rs| - 1 then i else Pick(rs, i + 1)
  }

  /** The pick accepts whenever the last reply does. */
  lemma {:induction false} PickAccepts(rs: seq<(Reply, Exporter)>, i: nat)
    requires i < |rs| && !rs[|rs| - 1].0.Declined?
    ensures !rs[Pick(rs, i)].0.Declined?
    decreases |rs| - i
  {
    if rs[i].0.Declined? && i < |rs| - 1 {
      PickAccepts(rs, i + 1);
    }
  }

  /** Every reply before the pick declined. */
  lemma {:induction false} PickSkips(rs: seq<(Reply, Exporter)>, i: nat, j: nat)
    requires i < |rs| && i <= j < Pick(rs, i)
    ensures rs[j].0.Declined?
    decreases |rs| - i
  {
    if i < j {
      PickSkips(rs, i + 1, j);
    }
  }

  /** The first parser, from position `i` on, that accepts the line, with
      its reply and the state after its `parse`. */
  function ChooseFrom(ex: Exporter, line: string, i: nat): (r: (nat, Reply, Exporter))
    requires i < |Parsers|
    ensures i <= r.0 < |Parsers| && (r.1, r.2) == Parse(ex, Parsers[r.0], line)
  {
    var rs := Replies(ex, line);
    var k := Pick(rs, i);
    (k, rs[k].0, rs[k].1)
  }

  /** The chosen parser accepts the line: the base parser, tried last,
      accepts every line. */
  lemma ChooseFromAccepts(ex: Exporter, line: string, i: nat)
    requires i < |Parsers|
    ensures !ChooseFrom(ex, line, i).1.Declined?
  {
    PickAccepts(Replies(ex, line), i);
  }

  /** Every parser tried before the chosen one declined the line. */
  lemma ChooseFromSkips(ex: Exporter, line: string, i: nat, j: nat)
    requires i < |Parsers| && i <= j < ChooseFrom(ex, line, i).0
    ensures Parse(ex, Parsers[j], line).0.Declined?
  {
    PickSkips(Replies(ex, line), i, j);
  }

  /** One round of `for p in list(last_parser)`: a parser that answers
      `end` is dropped from `last_parser`, and a string answer is added to
      the output. */
  function EndOne(ex: Exporter, p: ParserId, line: string): (r: Exporter)
    ensures r.title == ex.title && r.citations == ex.citations
    ensures Extends(r.out, ex.out)
    ensures forall q :: q in r.last ==> q in ex.last
  {
    var e := End(ex, p, line);
    if e.0.Declined? then e.1 else e.1.(out := Append(e.1.out, e.0), last := RemoveFirst(e.1.last, p))
  }

  /** `for p in list(last_parser)`: end each parser of `ps` in turn. */
  function Ends(ex: Exporter, ps: seq<ParserId>, line: string): (r: Exporter)
    ensures r.title == ex.title && r.citations == ex.citations
    ensures Extends(r.out, ex.out)
    ensures forall q :: q in r.last ==> q in ex.last
    decreases |ps|
  {
    if |ps| == 0 then ex else Ends(EndOne(ex, ps[0], line), ps[1..], line)
  }

  /** Removing one element keeps the others. */
  lemma RemoveFirstKeeps<T>(s: seq<T>, x: T, y: T)
    requires y in s && y != x
    ensures y in RemoveFirst(s, x)
  {
    assert multiset(RemoveFirst(s, x))[y] == multiset(s)[y];
  }

  /** The invariant with room for a parser `p` that is about to be listed
      and whose `parse` may already have opened a list or a header. */
  predicate Almost(ex: Exporter, p: ParserId) {
    NoDup(ex.last) && p !in ex.last &&
    (ex.level > 0 ==> PList in ex.last || p == PList) &&
    (ex.header.level == 0 ==> ex.header.output == "") &&
    (ex.header.output != "" ==> PHeader in ex.last || p == PHeader)
  }

  lemma EndOneAlmost(ex: Exporter, q: ParserId, p: ParserId, line: string)
    requires Almost(ex, p)
    ensures Almost(EndOne(ex, q, line), p)
  {
    var (rep, ex1) := End(ex, q, line);
    if !rep.Declined? {
      RemoveFirstNoDup(ex1.last, q);
      if q != PList && PList in ex1.last { RemoveFirstKeeps(ex1.last, q, PList); }
      if q != PHeader && PHeader in ex1.last { RemoveFirstKeeps(ex1.last, q, PHeader); }
    }
  }

  /** Ending parsers for a newcomer `p` keeps the relaxed invariant. */
  lemma {:induction false} EndsAlmost(ex: Exporter, ps: seq<ParserId>, p: ParserId, line: string)
    requires Almost(ex, p)
    ensures Almost(Ends(ex, ps, line), p)
    decreases |ps|
  {
    if |ps| > 0 {
      EndOneAlmost(ex, ps[0], p, line);
      EndsAlmost(EndOne(ex, ps[0], line), ps[1..], p, line);
    }
  }

  /** Every parser of `ps` other than the list parser is dropped: only the
      list parser can decline to end. */
  lemma {:induction false} EndsDrops(ex: Exporter, ps: seq<ParserId>, line: string)
    requires NoDup(ex.last)
    ensures forall q :: q in ps && q != PList ==> q !in Ends(ex, ps, line).last
    decreases |ps|
  {
    if |ps| > 0 {
      var ex1 := EndOne(ex, ps[0], line);
      var (rep, _) := End(ex, ps[0], line);
      if !rep.Declined? { RemoveFirstNoDup(ex.last, ps[0]); }
      EndsDrops(ex1, ps[1..], line);
      forall q | q in ps && q != PList ensures q !in Ends(ex, ps, line).last {
        if q != ps[0] { assert q in ps[1..]; }
      }
    }
  }

  /** When the list parser is listed and ended, it stays listed exactly
      when the line is indented by the current nesting level. */
  lemma {:induction false} EndsList(ex: Exporter, ps: seq<ParserId>, line: string)
    requires NoDup(ps) && NoDup(ex.last) && PList in ps && PList in ex.last
    ensures PList in Ends(ex, ps, line).last <==> IndentTabs(line) == ex.level
    decreases |ps|
  {
    var (rep, ex1) := End(ex, ps[0], line);
    var ex2 := EndOne(ex, ps[0], line);
    if ps[0] == PList {
      assert PList !in ps[1..];
      if !rep.Declined? { RemoveFirstNoDup(ex1.last, PList); }
      EndsKeepsAbsent(ex2, ps[1..], line);
      if rep.Declined? { EndsKeepsUntouched(ex2, ps[1..], line); }
    } else {
      assert PList in ps[1..];
      if !rep.Declined? {
        RemoveFirstKeeps(ex1.last, ps[0], PList);
        RemoveFirstNoDup(ex1.last, ps[0]);
      }
      EndsList(ex2, ps[1..], line);
    }
  }

  /** Ending never lists a parser again. */
  lemma EndsKeepsAbsent(ex: Exporter, ps: seq<ParserId>, line: string)
    ensures PList !in ex.last ==> PList !in Ends(ex, ps, line).last
  {
  }

  /** Ending other parsers leaves the list parser alone. */
  lemma {:induction false} EndsKeepsUntouched(ex: Exporter, ps: seq<ParserId>, line: string)
    requires PList !in ps && PList in ex.last
    ensures PList in Ends(ex, ps, line).last
    decreases |ps|
  {
    if |ps| > 0 {
      var (rep, ex1) := End(ex, ps[0], line);
      if !rep.Declined? { RemoveFirstKeeps(ex1.last, ps[0], PList); }
      EndsKeepsUntouched(EndOne(ex, ps[0], line), ps[1..], line);
    }
  }

  /** One line of `export`, given as the inline-rewritten line and whether
      the rewriting met a citation: the first parser that accepts the line
      answers, the parsers it displaces are ended first, its reply is
      appended, and it joins `last_parser`. */
  function Step(ex: Exporter, inline: (string, bool)): (r: Exporter)
    ensures r.citations == (ex.citations || inline.1)
    ensures Extends(r.out, ex.out)
  {
    var line := inline.0;
    var ex0 := ex.(citations := ex.citations || inline.1);
    var (k, rep, ex1) := ChooseFrom(ex0, line, 0);
    Claim(ex1, Parsers[k], rep, line)
  }

  /** The bookkeeping after parser `p` accepted the line with `rep`. */
  function Claim(ex1: Exporter, p: ParserId, rep: Reply, line: string): (r: Exporter)
    ensures r.citations == ex1.citations
    ensures Extends(r.out, ex1.out)
    ensures p in r.last
    ensures rep.Emit? ==> |r.out| > 0 && r.out[|r.out| - 1] == rep.text
    ensures p in ex1.last ==> r.out == Append(ex1.out, rep) && r.last == ex1.last
  {
    var ex2 := if p in ex1.last then ex1 else Ends(ex1, ex1.last, line);
    var ex3 := ex2.(out := Append(ex2.out, rep));
    ex3.(last := if p in ex3.last then ex3.last else ex3.last + [p])
  }

  /** A parser that is already listed claims a line without ending anyone;
      a newcomer ends every listed parser except, possibly, the list
      parser. */
  lemma ClaimEnds(ex1: Exporter, p: ParserId, rep: Reply, line: string)
    requires NoDup(ex1.last)
    ensures p !in ex1.last ==>
              forall q :: q in Claim(ex1, p, rep, line).last ==> q == p || (q == PList && q in ex1.last)
  {
    if p !in ex1.last {
      EndsDrops(ex1, ex1.last, line);
    }
  }

  /** The parse changes only the accepting parser's own state. */
  lemma ParseAlmost(ex0: Exporter, p: ParserId, line: string)
    requires Inv(ex0) && p !in ex0.last
    ensures Almost(Parse(ex0, p, line).1, p)
  {
  }

  /** A listed parser may parse without breaking the invariant. */
  lemma ParseInv(ex0: Exporter, p: ParserId, line: string)
    requires Inv(ex0) && p in ex0.last
    ensures Inv(Parse(ex0, p, line).1)
  {
  }

  /** A listed parser claiming the line keeps the invariant. */
  lemma ClaimOldInv(ex1: Exporter, p: ParserId, rep: Reply, line: string)
    requires Inv(ex1) && p in ex1.last
    ensures Inv(Claim(ex1, p, rep, line))
  {
  }

  /** A newcomer claiming the line keeps the invariant: every listed parser
      is ended first, then the newcomer is appended. */
  lemma ClaimNewInv(ex1: Exporter, p: ParserId, rep: Reply, line: string)
    requires Almost(ex1, p)
    ensures Inv(Claim(ex1, p, rep, line))
  {
    EndsAlmost(ex1, ex1.last, p, line);
    var ex2 := Ends(ex1, ex1.last, line);
    assert NoDup(ex2.last + [p]);
  }

  /** `Step` is the claim of the chosen parser. */
  lemma StepIs(ex: Exporter, inline: (string, bool), ex0: Exporter, c: (nat, Reply, Exporter))
    requires ex0 == ex.(citations := ex.citations || inline.1)
    requires c == ChooseFrom(ex0, inline.0, 0)
    ensures Step(ex, inline) == Claim(c.2, Parsers[c.0], c.1, inline.0)
  {
  }

  /** One line keeps the dispatch invariant. */
  lemma StepInv(ex: Exporter, inline: (string, bool))
    requires Inv(ex)
    ensures Inv(Step(ex, inline))
  {
    var ex0 := ex.(citations := ex.citations || inline.1);
    var c := ChooseFrom(ex0, inline.0, 0);
    var p := Parsers[c.0];
    StepIs(ex, inline, ex0, c);
    if p in ex0.last {
      ParseInv(ex0, p, inline.0);
      ClaimOldInv(c.2, p, c.1, inline.0);
    } else {
      ParseAlmost(ex0, p, inline.0);
      ClaimNewInv(c.2, p, c.1, inline.0);
    }
  }

  /** The loop of `export` over the inline-rewritten lines. */
  function Run(ex: Exporter, lines: seq<(string, bool)>): (r: Exporter)
    ensures r.citations <==> ex.citations || exists i :: 0 <= i < |lines| && lines[i].1
    ensures Extends(r.out, ex.out)
    decreases |lines|
  {
    if |lines| == 0 then ex
    else
      var r := Run(Step(ex, lines[0]), lines[1..]);
      assert forall i :: 1 <= i < |lines| ==> lines[i] == lines[1..][i - 1];
      r
  }

  /** The dispatch invariant holds over any run of lines. */
  lemma {:induction false} RunInv(ex: Exporter, lines: seq<(string, bool)>)
    requires Inv(ex)
    ensures Inv(Run(ex, lines))
    decreases |lines|
  {
    if |lines| > 0 {
      StepInv(ex, lines[0]);
      RunInv(Step(ex, lines[0]), lines[1..]);
    }
  }

  /** After the lines: `parser.last()` for every parser; only the list
      parser answers, closing the open itemize environments.  Pending
      header text is not flushed, since the header parser has no `last`. */
  function Finish(ex: Exporter): (r: Exporter)
    ensures r.level == 0 && r.header == ex.header && r.citations == ex.citations && r.title == ex.title
    ensures r.out == ex.out + [Unlines(Closes(ex.level, 0))]
  {
    var (rep, lv) := LastList(ex.level);
    ex.(out := Append(ex.out, rep), level := lv)
  }

  const Packages: string :=
    "\\documentclass{article}\n\\usepackage{amsmath}\n\\usepackage{fullpage}\n\\usepackage{graphicx}\n"

  const Apacite: string := "\\usepackage{apacite}\n"

  /** The `\bibliography` lines for the `.bib` files found next to the
      document (their base names). */
  function Bibliographies(bibs: seq<string>): string {
    if |bibs| == 0 then ""
    else "\n\\bibliography{" + ExportInline.ReplaceAll(bibs[0], ".bib", "") + "}\n" + Bibliographies(bibs[1..])
  }

  /** The text `export` writes: packages (with `apacite` when a citation
      was seen), the title and `\begin{document}` (with `\maketitle` for a
      non-empty title), the output lines joined by newlines, the
      bibliography when a citation was seen, and `\end{document}`. */
  function Render(ex: Exporter, bibs: seq<string>): string {
    Packages + AfterPackages(ex, bibs)
  }

  function AfterPackages(ex: Exporter, bibs: seq<string>): string {
    (if ex.citations then Apacite else "") + Header(ex) + Content(ex, bibs) + "\\end{document}"
  }

  function Header(ex: Exporter): (r: string)
    ensures |r| > 1 && r[1] == 't'
  {
    "\\title{" + ex.title + "}\n\n\\begin{document}\n" + (if ex.title != "" then "\n\\maketitle\n\n" else "")
  }

  function Content(ex: Exporter, bibs: seq<string>): string {
    Join(ex.out, "\n") +
      (if ex.citations then (if |bibs| > 0 then "\n\\bibliographystyle{apacite}" else "") + Bibliographies(bibs) else "")
  }

  /** The document starts with the fixed packages, loads `apacite` right
      after them exactly when a citation was seen, and ends with
      `\end{document}`. */
  lemma RenderShape(ex: Exporter, bibs: seq<string>)
    ensures var r := Render(ex, bibs);
            |r| >= |Packages| + 14 && r[..|Packages|] == Packages &&
            (ExportInline.At(r, |Packages|, Apacite) <==> ex.citations) &&
            r[|r| - 14..] == "\\end{document}"
  {
    var rest := AfterPackages(ex, bibs);
    var r := Packages + rest;
    assert r[..|Packages|] == Packages;
    assert ExportInline.At(r, |Packages|, Apacite) <==> ExportInline.At(rest, 0, Apacite) by {
      assert forall n :: 0 <= n && |Packages| + n <= |r| ==> r[|Packages|..|Packages| + n] == rest[..n];
    }
    AfterPackagesShape(ex, bibs);
    assert r[|r| - 14..] == rest[|rest| - 14..];
  }

  lemma AfterPackagesShape(ex: Exporter, bibs: seq<string>)
    ensures var rest := AfterPackages(ex, bibs);
            |rest| >= 14 && (ExportInline.At(rest, 0, Apacite) <==> ex.citations) &&
            rest[|rest| - 14..] == "\\end{document}"
  {
    var a := if ex.citations then Apacite else "";
    var h, c := Header(ex), Content(ex, bibs);
    var e := "\\end{document}";
    var rest := a + h + c + e;
    assert rest[|rest| - 14..] == e;
    if ex.citations {
      assert rest[..|Apacite|] == Apacite;
    } else {
      assert rest[1] == h[1];
      assert Apacite[1] == 'u';
    }
  }

  /** `export()` on the document text, with the base names of the `.bib`
      files beside it; `inline` is `_parse_inline` with its citation flag. */
  function ExportWith(inline: string -> (string, bool), data: string, bibs: seq<string>): string {
    var lines := Split(data, '\n');
    Render(Finish(Run(Start, Inlined(inline, lines))), bibs)
  }

  function Inlined(inline: string -> (string, bool), lines: seq<string>): (r: seq<(string, bool)>)
    ensures |r| == |lines| && forall i :: 0 <= i < |lines| ==> r[i] == inline(lines[i])
  {
    seq(|lines|, i requires 0 <= i < |lines| => inline(lines[i]))
  }

  /** `export()` with the model's `_parse_inline`. */
  function Export(data: string, bibs: seq<string>): string {
    ExportWith(ExportInline.ParseInline, data, bibs)
  }

  /** The exported document loads `apacite` exactly when some line of the
      document holds a citation. */
  lemma ExportCites(inline: string -> (string, bool), data: string, bibs: seq<string>)
    ensures var lines := Split(data, '\n');
            var r := ExportWith(inline, data, bibs);
            ExportInline.At(r, |Packages|, Apacite) <==> exists i :: 0 <= i < |lines| && inline(lines[i]).1
  {
    var lines := Split(data, '\n');
    var ex := Finish(Run(Start, Inlined(inline, lines)));
    RenderShape(ex, bibs);
  }

  /** Every line's run keeps the dispatch invariant, and the export closes
      every itemize it opened: the list level is back to zero and the last
      output line closes the levels still open. */
  lemma ExportCloses(lines: seq<(string, bool)>)
    ensures var ex := Run(Start, lines);
            Inv(ex) && Finish(ex).level == 0 &&
            Finish(ex).out[|Finish(ex).out| - 1] == Unlines(Closes(ex.level, 0)) &&
            (ex.level > 0 ==> PList in ex.last)
  {
    assert Inv(Start);
    RunInv(Start, lines);
  }
}
