/** The inline rewriting of plugin/jft/ExportLatex.py: `_parse_inline`,
    which leaves `$…$` segments alone, and `_parse_inline_real`, which runs
    the cite, comment and emphasis rewriters on the text between them and
    then escapes `_`, `<` and `>`.

    The export only ever hands these functions single lines (the document
    split on newlines), so a `.` in the patterns, which matches anything but
    a newline, is modelled as matching any character. */
module ExportInline {
  import opened Wrappers
  import opened Seqs
  import Regex

  /** The character `_inline_cite` puts in place of a cite key's
      underscores, turned back into `_` once the line is done. */
  const Sentinel: char := '\U{00AC}'

  /** `p` occurs in `s` at offset `i`. */
  predicate At(s: string, i: int, p: string) {
    0 <= i && i + |p| <= |s| && s[i..i + |p|] == p
  }

  /** `s.find(p, i)`: the first occurrence of `p` at or after `i`. */
  function FindFrom(s: string, p: string, i: nat): (r: Option<nat>)
    requires |p| > 0
    ensures r.Some? ==> i <= r.value && At(s, r.value, p)
    ensures forall k :: i <= k && (r.None? || k < r.value) ==> !At(s, k, p)
    decreases |s| - i
  {
    if i + |p| > |s| then None
    else if At(s, i, p) then Some(i)
    else FindFrom(s, p, i + 1)
  }

  /** The characters of `s` in `[lo, hi)` avoid `c`. */
  predicate Avoids(s: string, lo: int, hi: int, c: char) {
    forall k :: lo <= k < hi && 0 <= k < |s| ==> s[k] != c
  }

  /** The first `c` at or after `k`. */
  function NextOf(s: string, c: char, k: nat): (r: Option<nat>)
    ensures r.Some? ==> k <= r.value < |s| && s[r.value] == c && Avoids(s, k, r.value, c)
    ensures r.None? ==> Avoids(s, k, |s|, c)
    decreases |s| - k
  {
    if k >= |s| then None
    else if s[k] == c then Some(k)
    else NextOf(s, c, k + 1)
  }

  // ---------------------------------------------------------------------
  // `\{\{cite\((.*?)\):.*?\}\}` and `_inline_cite`

  /** A match of the cite pattern: where it starts, where the key ends
      (at the `):`), and where it ends (after the `}}`). */
  datatype CiteMatch = CiteMatch(start: nat, keyEnd: nat, end: nat)

  /** `m` matches the cite pattern in `s`, both lazy parts as short as they
      can be. */
  predicate CiteAt(s: string, m: CiteMatch) {
    At(s, m.start, "{{cite(") && m.start + 7 <= m.keyEnd && At(s, m.keyEnd, "):") &&
    m.keyEnd + 4 <= m.end && At(s, m.end - 2, "}}") &&
    (forall k :: m.start + 7 <= k < m.keyEnd ==> !At(s, k, "):")) &&
    (forall k :: m.keyEnd + 2 <= k < m.end - 2 ==> !At(s, k, "}}"))
  }

  /** `search` for the cite pattern: the first `{{cite(`, the first `):`
      after it and the first `}}` after that.  A later `{{cite(` cannot
      match when the first one does not, since it sees fewer `):` and `}}`;
      so there is no match at all exactly when these are missing. */
  function CiteSearch(s: string): (r: Option<CiteMatch>)
    ensures r.Some? ==> CiteAt(s, r.value) && forall k :: k < r.value.start ==> !At(s, k, "{{cite(")
    ensures r.None? ==> forall a, b, c :: a + 7 <= b && b + 2 <= c && At(s, a, "{{cite(") && At(s, b, "):") ==> !At(s, c, "}}")
  {
    match FindFrom(s, "{{cite(", 0)
    case None => None
    case Some(a) =>
      match FindFrom(s, "):", a + 7)
      case None => None
      case Some(b) =>
        match FindFrom(s, "}}", b + 2)
        case None => None
        case Some(c) => Some(CiteMatch(a, b, c + 2))
  }

  /** `key.replace('_', u"¬")`. */
  function Mark(key: string): (r: string)
    ensures |r| == |key| && forall i :: 0 <= i < |key| ==> r[i] == (if key[i] == '_' then Sentinel else key[i])
  {
    seq(|key|, i requires 0 <= i < |key| => if key[i] == '_' then Sentinel else key[i])
  }

  /** `ret.replace(u"¬", '_')`. */
  function Unmark(s: string): (r: string)
    ensures |r| == |s| && forall i :: 0 <= i < |s| ==> r[i] == (if s[i] == Sentinel then '_' else s[i])
  {
    seq(|s|, i requires 0 <= i < |s| => if s[i] == Sentinel then '_' else s[i])
  }

  lemma UnmarkAppend(a: string, b: string)
    ensures Unmark(a + b) == Unmark(a) + Unmark(b)
  {
    assert forall i :: 0 <= i < |a + b| ==> Unmark(a + b)[i] == (Unmark(a) + Unmark(b))[i];
  }

  /** Undoing the marking gives the key back when it held no sentinel. */
  lemma UnmarkMark(key: string)
    requires Sentinel !in key
    ensures Unmark(Mark(key)) == key
  {
    assert forall i :: 0 <= i < |key| ==> key[i] in key;
  }

  /** One rewrite: the match becomes `\cite{key}`, the key's underscores
      marked.  The text gets shorter by at least four characters. */
  function CiteStep(s: string, m: CiteMatch): (r: string)
    requires CiteAt(s, m)
    ensures |r| + 4 <= |s|
  {
    s[..m.start] + "\\cite{" + Mark(s[m.start + 7..m.keyEnd]) + "}" + s[m.end..]
  }

  /** `while True: match = search(part) …` for the cite rewriter: afterwards
      the pattern matches nowhere, and the citations flag is raised exactly
      when it matched the original text. */
  function CiteLoop(s: string): (r: (string, bool))
    ensures r.1 <==> CiteSearch(s).Some?
    ensures CiteSearch(r.0).None?
    decreases |s|
  {
    match CiteSearch(s)
    case None => (s, false)
    case Some(m) => (CiteLoop(CiteStep(s, m)).0, true)
  }

  // ---------------------------------------------------------------------
  // `([^\s].*)#` and `_inline_comment`

  /** The index of the first non-blank character, or `|s|`. */
  function FirstSolid(s: string): (r: nat)
    ensures r <= |s|
  {
    if |s| == 0 || !Regex.IsSpace(s[0]) then 0 else 1 + FirstSolid(s[1..])
  }

  /** Everything before `FirstSolid(s)` is blank, the character there is
      not. */
  lemma {:induction false} FirstSolidSpec(s: string)
    ensures var r := FirstSolid(s);
            (forall k :: 0 <= k < r ==> Regex.IsSpace(s[k])) && (r < |s| ==> !Regex.IsSpace(s[r]))
  {
    if |s| > 0 && Regex.IsSpace(s[0]) {
      FirstSolidSpec(s[1..]);
      forall k | 1 <= k < FirstSolid(s) ensures Regex.IsSpace(s[k]) { assert s[k] == s[1..][k - 1]; }
    }
  }

  /** The index of the last `c`, or -1. */
  function LastOf(s: string, c: char): (r: int)
    ensures -1 <= r < |s| && (r >= 0 ==> s[r] == c)
  {
    if |s| == 0 then -1
    else if s[|s| - 1] == c then |s| - 1
    else LastOf(s[..|s| - 1], c)
  }

  /** No `c` follows `LastOf(s, c)`. */
  lemma {:induction false} LastOfSpec(s: string, c: char)
    ensures Avoids(s, LastOf(s, c) + 1, |s|, c)
  {
    if |s| > 0 && s[|s| - 1] != c {
      LastOfSpec(s[..|s| - 1], c);
      forall k | LastOf(s, c) + 1 <= k < |s| - 1 ensures s[k] != c { assert s[k] == s[..|s| - 1][k]; }
    }
  }

  /** `search` for `([^\s].*)#` succeeds exactly when some `#` follows the
      first non-blank character; it starts there and, `.*` being greedy,
      ends at the last `#`. */
  predicate CommentMatches(s: string) {
    FirstSolid(s) < LastOf(s, '#')
  }

  /** One rewrite, `'%' + group(1)`: a `%` goes in front of the first
      non-blank character and the last `#` goes away. */
  function CommentStep(s: string): (r: string)
    requires CommentMatches(s)
  {
    var i, l := FirstSolid(s), LastOf(s, '#');
    s[..i] + "%" + s[i..l] + s[l + 1..]
  }

  /** Each rewrite removes one `#`. */
  lemma CommentStepHashes(s: string)
    requires CommentMatches(s)
    ensures Occurrences(CommentStep(s), '#') + 1 == Occurrences(s, '#')
  {
    var i, l := FirstSolid(s), LastOf(s, '#');
    CountSplit3(s, i, l, '#');
    CountAt(s, l, '#');
    CountAppend4(s[..i], "%", s[i..l], s[l + 1..], '#');
  }

  /** The comment rewriter's loop. */
  function CommentLoop(s: string): string
    decreases Occurrences(s, '#')
  {
    if CommentMatches(s) then
      CommentStepHashes(s);
      CommentLoop(CommentStep(s))
    else s
  }

  /** Counting over a string cut in three places. */
  lemma CountSplit3(s: string, i: nat, j: nat, c: char)
    requires i <= j <= |s|
    ensures Occurrences(s, c) == Occurrences(s[..i], c) + Occurrences(s[i..j], c) + Occurrences(s[j..], c)
  {
    assert s == s[..i] + (s[i..j] + s[j..]);
    OccurrencesAppend(s[..i], s[i..j] + s[j..], c);
    OccurrencesAppend(s[i..j], s[j..], c);
  }

  /** Counting from a position: the character there, then the rest. */
  lemma CountAt(s: string, i: nat, c: char)
    requires i < |s|
    ensures Occurrences(s[i..], c) == (if s[i] == c then 1 else 0) + Occurrences(s[i + 1..], c)
  {
    assert s[i..][1..] == s[i + 1..];
  }

  /** Counting over four pieces joined left to right. */
  lemma CountAppend4(a: string, b: string, d: string, e: string, c: char)
    ensures Occurrences(a + b + d + e, c) == Occurrences(a, c) + Occurrences(b, c) + Occurrences(d, c) + Occurrences(e, c)
  {
    OccurrencesAppend(a + b + d, e, c);
    OccurrencesAppend(a + b, d, c);
    OccurrencesAppend(a, b, c);
  }

  /** What the comment rewriter does, stated without the loop: when a `#`
      follows the first non-blank character, every `#` from that character
      on is dropped and as many `%` are put in front of it; otherwise the
      text is left alone. */
  function CommentResult(s: string): string {
    var i := FirstSolid(s);
    if CommentMatches(s) then Commented(s[..i], s[i..]) else s
  }

  /** `pre`, then a `%` for every `#` in `rest`, then `rest` without them. */
  function Commented(pre: string, rest: string): string {
    pre + Repeat("%", Occurrences(rest, '#')) + Without(rest, '#')
  }

  /** The loop computes `CommentResult`. */
  lemma {:induction false} CommentLoopResult(s: string)
    ensures CommentLoop(s) == CommentResult(s)
    decreases Occurrences(s, '#')
  {
    if CommentMatches(s) {
      var t := CommentStep(s);
      CommentStepHashes(s);
      CommentLoopResult(t);
      CommentStepResult(s);
    }
  }

  /** One round of the loop does not change the final result. */
  lemma CommentStepResult(s: string)
    requires CommentMatches(s)
    ensures CommentResult(CommentStep(s)) == CommentResult(s)
  {
    var i, t := FirstSolid(s), CommentStep(s);
    CommentStepShape(s);
    CommentStepStrip(s);
    CommentStepCount(s);
    CommentedStep(s[..i], t[i..], s[i..]);
    if !CommentMatches(t) {
      HashFreeAfter(t, i);
      CommentedHashFree(t[..i], t[i..]);
      assert t == t[..i] + t[i..];
    }
  }

  /** `Commented` is the same for a rest with a `%` in front and one `#`
      fewer. */
  lemma CommentedStep(pre: string, r1: string, r2: string)
    requires Without(r1, '#') == "%" + Without(r2, '#') && Occurrences(r1, '#') + 1 == Occurrences(r2, '#')
    ensures Commented(pre, r1) == Commented(pre, r2)
  {
    var k := Occurrences(r1, '#');
    RepeatSnoc("%", k);
    assert Repeat("%", k) + ("%" + Without(r2, '#')) == (Repeat("%", k) + "%") + Without(r2, '#');
  }

  /** Without a `#`, `Commented` only joins the two parts. */
  lemma CommentedHashFree(pre: string, rest: string)
    requires '#' !in rest
    ensures Commented(pre, rest) == pre + rest
  {
    WithoutNone(rest, '#');
    OccurrencesNone(rest, '#');
  }

  /** When the first non-blank character is not followed by a `#` and is
      not one itself, there is no `#` from it on. */
  lemma HashFreeAfter(t: string, i: nat)
    requires i == FirstSolid(t) && i < |t| && t[i] != '#' && !CommentMatches(t)
    ensures '#' !in t[i..]
  {
    LastOfSpec(t, '#');
    forall q | 0 <= q < |t[i..]| ensures t[i..][q] != '#' { assert t[i..][q] == t[i + q]; }
  }

  /** After one round the first non-blank character is the new `%`, with
      the text before it unchanged. */
  lemma CommentStepShape(s: string)
    requires CommentMatches(s)
    ensures var i, l, t := FirstSolid(s), LastOf(s, '#'), CommentStep(s);
            FirstSolid(t) == i && i < |t| && t[..i] == s[..i] && t[i] == '%' &&
            s[i..] == s[i..l] + ['#'] + s[l + 1..] && t[i..] == "%" + s[i..l] + s[l + 1..]
  {
    var i, l := FirstSolid(s), LastOf(s, '#');
    var t := CommentStep(s);
    CommentStepSplit(s);
    FirstSolidPrefix(s, t, i);
  }

  /** The parts of one rewrite, cut where the first non-blank character
      was. */
  lemma CommentStepSplit(s: string)
    requires CommentMatches(s)
    ensures var i, l, t := FirstSolid(s), LastOf(s, '#'), CommentStep(s);
            t[..i] == s[..i] && t[i..] == "%" + s[i..l] + s[l + 1..] && s[i..] == s[i..l] + ['#'] + s[l + 1..]
  {
    var i, l := FirstSolid(s), LastOf(s, '#');
    assert CommentStep(s) == s[..i] + "%" + s[i..l] + s[l + 1..];
    DropAt(s, i, l);
  }

  /** Putting a `%` at `i` and dropping the character at `l`. */
  lemma DropAt(s: string, i: nat, l: nat)
    requires i < l < |s| && s[l] == '#'
    ensures var t := s[..i] + "%" + s[i..l] + s[l + 1..];
            t[..i] == s[..i] && t[i..] == "%" + s[i..l] + s[l + 1..] && s[i..] == s[i..l] + ['#'] + s[l + 1..]
  {
    var b := "%" + s[i..l] + s[l + 1..];
    assert s[..i] + "%" + s[i..l] + s[l + 1..] == s[..i] + b;
    SplitAt(s[..i], b);
    assert s[l..] == [s[l]] + s[l + 1..];
    assert s[i..] == s[i..l] + s[l..];
  }

  /** Cutting a concatenation where its parts meet. */
  lemma SplitAt(a: string, b: string)
    ensures (a + b)[..|a|] == a && (a + b)[|a|..] == b
  {
  }

  lemma CommentStepStrip(s: string)
    requires CommentMatches(s)
    ensures var i, t := FirstSolid(s), CommentStep(s);
            Without(t[i..], '#') == "%" + Without(s[i..], '#')
  {
    var i, l, t := FirstSolid(s), LastOf(s, '#'), CommentStep(s);
    CommentStepSplit(s);
    StripOfParts(t[i..], s[i..], s[i..l], s[l + 1..]);
  }

  lemma CommentStepCount(s: string)
    requires CommentMatches(s)
    ensures var i, t := FirstSolid(s), CommentStep(s);
            Occurrences(t[i..], '#') + 1 == Occurrences(s[i..], '#')
  {
    var i, l, t := FirstSolid(s), LastOf(s, '#'), CommentStep(s);
    CommentStepSplit(s);
    CountOfParts(t[i..], s[i..], s[i..l], s[l + 1..]);
  }

  lemma StripOfParts(a: string, b: string, mid: string, tail: string)
    requires a == "%" + mid + tail && b == mid + ['#'] + tail
    ensures Without(a, '#') == "%" + Without(b, '#')
  {
    HashDroppedStrip(mid, tail);
  }

  lemma CountOfParts(a: string, b: string, mid: string, tail: string)
    requires a == "%" + mid + tail && b == mid + ['#'] + tail
    ensures Occurrences(a, '#') + 1 == Occurrences(b, '#')
  {
    HashDroppedCount(mid, tail);
  }

  /** Putting a `%` in front and dropping a `#` in the middle. */
  lemma HashDroppedStrip(mid: string, tail: string)
    ensures Without("%" + mid + tail, '#') == "%" + Without(mid + ['#'] + tail, '#')
  {
    WithoutAppend(mid + ['#'], tail, '#');
    WithoutAppend(mid, ['#'], '#');
    WithoutCons('#', [], '#');
    assert "%" + mid + tail == ['%'] + (mid + tail);
    WithoutCons('%', mid + tail, '#');
    WithoutAppend(mid, tail, '#');
  }

  lemma HashDroppedCount(mid: string, tail: string)
    ensures Occurrences("%" + mid + tail, '#') + 1 == Occurrences(mid + ['#'] + tail, '#')
  {
    OccurrencesAppend(mid + ['#'], tail, '#');
    OccurrencesAppend(mid, ['#'], '#');
    assert "%" + mid + tail == ['%'] + (mid + tail);
    assert (['%'] + (mid + tail))[1..] == mid + tail;
    assert Occurrences(['#'], '#') == 1 by { assert ['#'][1..] == []; }
    OccurrencesAppend(mid, tail, '#');
  }

  /** A string that agrees with `s` on its blank prefix of length `i`
      and has a non-blank character at `i` has the same first non-blank
      character. */
  lemma FirstSolidPrefix(s: string, t: string, i: nat)
    requires i == FirstSolid(s) && i < |t| && t[..i] == s[..i] && !Regex.IsSpace(t[i])
    ensures FirstSolid(t) == i
  {
    FirstSolidSpec(s);
    FirstSolidSpec(t);
  }

  // ---------------------------------------------------------------------
  // `'([^']+)'` and `_inline_emphasize`

  /** `search` for `'([^']+)'` from offset `k`: the first quote whose next
      quote is not the character right after it; returns both quotes. */
  function EmphFrom(s: string, k: nat): Option<(nat, nat)>
    decreases |s| - k
  {
    if k >= |s| then None
    else if s[k] == '\'' then
      match NextOf(s, '\'', k + 1)
      case None => None
      case Some(j) => if j >= k + 2 then Some((k, j)) else EmphFrom(s, k + 1)
    else EmphFrom(s, k + 1)
  }

  /** What the search returns is a match: two quotes, neither adjacent nor
      with a quote between them. */
  lemma {:induction false} EmphFromFound(s: string, k: nat)
    requires EmphFrom(s, k).Some?
    ensures var (i, j) := EmphFrom(s, k).value;
            k <= i && i + 2 <= j < |s| && s[i] == '\'' && s[j] == '\'' && Avoids(s, i + 1, j, '\'')
    decreases |s| - k
  {
    if s[k] != '\'' || NextOf(s, '\'', k + 1).value < k + 2 { EmphFromFound(s, k + 1); }
  }

  /** No quote before the one the search returns (or at all, when it
      returns nothing) starts a match: each is followed by another quote or
      by none. */
  lemma {:induction false} EmphFromFirst(s: string, k: nat, q: nat)
    requires k <= q < |s| && s[q] == '\''
    requires EmphFrom(s, k).None? || q < EmphFrom(s, k).value.0
    ensures NextOf(s, '\'', q + 1).None? || NextOf(s, '\'', q + 1) == Some(q + 1)
    decreases |s| - k
  {
    if !(s[k] == '\'' && NextOf(s, '\'', k + 1).None?) && q > k {
      EmphFromFirst(s, k + 1, q);
    }
  }

  /** One rewrite: the quoted text becomes `\textit{…}`; two quotes go. */
  function EmphStep(s: string, i: nat, j: nat): (r: string)
    requires i + 2 <= j < |s|
  {
    s[..i] + "\\textit{" + s[i + 1..j] + "}" + s[j + 1..]
  }

  /** A rewrite removes two quotes. */
  lemma EmphStepQuotes(s: string, i: nat, j: nat)
    requires i + 2 <= j < |s| && s[i] == '\'' && s[j] == '\'' && Avoids(s, i + 1, j, '\'')
    ensures Occurrences(EmphStep(s, i, j), '\'') + 2 == Occurrences(s, '\'')
  {
    var w := s[i + 1..j];
    QuotesAround(s, i, j);
    assert EmphStep(s, i, j) == s[..i] + "\\textit{" + w + "}" + s[j + 1..];
    QuotedCount(s[..i], w, s[j + 1..]);
    TextitCount(s[..i], w, s[j + 1..]);
  }

  /** A text cut around two quotes with none between them. */
  lemma QuotesAround(s: string, i: nat, j: nat)
    requires i + 2 <= j < |s| && s[i] == '\'' && s[j] == '\'' && Avoids(s, i + 1, j, '\'')
    ensures var w := s[i + 1..j]; '\'' !in w && s == s[..i] + "'" + w + "'" + s[j + 1..]
  {
    var w := s[i + 1..j];
    forall q | 0 <= q < |w| ensures w[q] != '\'' { assert w[q] == s[i + 1 + q]; }
    assert s[i..] == "'" + w + "'" + s[j + 1..];
  }

  /** Counting quotes around a quote-free word. */
  lemma QuotedCount(a: string, w: string, b: string)
    requires '\'' !in w
    ensures Occurrences(a + "'" + w + "'" + b, '\'') == Occurrences(a, '\'') + Occurrences(b, '\'') + 2
  {
    OccurrencesNone(w, '\'');
    assert Occurrences("'", '\'') == 1 by { assert "'"[1..] == []; }
    OccurrencesAppend(a + "'" + w + "'", b, '\'');
    CountAppend4(a, "'", w, "'", '\'');
  }

  /** `\textit{…}` around a quote-free word adds no quote. */
  lemma TextitCount(a: string, w: string, b: string)
    requires '\'' !in w
    ensures Occurrences(a + "\\textit{" + w + "}" + b, '\'') == Occurrences(a, '\'') + Occurrences(b, '\'')
  {
    OccurrencesNone(w, '\'');
    OccurrencesNone("\\textit{", '\'');
    OccurrencesNone("}", '\'');
    OccurrencesAppend(a + "\\textit{" + w + "}", b, '\'');
    CountAppend4(a, "\\textit{", w, "}", '\'');
  }

  /** The emphasis rewriter's loop. */
  function EmphLoop(s: string): string
    decreases Occurrences(s, '\'')
  {
    match EmphFrom(s, 0)
    case None => s
    case Some((i, j)) =>
      EmphFromFound(s, 0);
      EmphStepQuotes(s, i, j);
      EmphLoop(EmphStep(s, i, j))
  }

  /** A position moved `d` characters to the right. */
  function ShiftOpt(r: Option<nat>, d: nat): Option<nat> {
    if r.Some? then Some(d + r.value) else None
  }

  /** A quote-free prefix does not change where the next quote is. */
  lemma {:induction false} NextQuoteShift(a: string, t: string, k: nat)
    requires '\'' !in a
    ensures NextOf(a + t, '\'', |a| + k) == ShiftOpt(NextOf(t, '\'', k), |a|)
    decreases |t| - k
  {
    if k < |t| {
      assert (a + t)[|a| + k] == t[k];
      if t[k] != '\'' { NextQuoteShift(a, t, k + 1); }
    }
  }

  /** The search skips a quote-free prefix. */
  lemma {:induction false} EmphFromSkip(a: string, t: string, k: nat)
    requires '\'' !in a && k <= |a|
    ensures EmphFrom(a + t, k) == EmphFrom(a + t, |a|)
    decreases |a| - k
  {
    if k < |a| {
      assert (a + t)[k] == a[k];
      EmphFromSkip(a, t, k + 1);
    }
  }

  /** A search result moved `d` characters to the right. */
  function ShiftPair(r: Option<(nat, nat)>, d: nat): Option<(nat, nat)> {
    match r
    case None => None
    case Some((i, j)) => Some((d + i, d + j))
  }

  /** Past a quote-free prefix, the search finds what it finds in the rest,
      shifted. */
  lemma {:induction false} EmphFromShift(a: string, t: string, k: nat)
    requires '\'' !in a
    ensures EmphFrom(a + t, |a| + k) == ShiftPair(EmphFrom(t, k), |a|)
    decreases |t| - k
  {
    if k < |t| {
      assert (a + t)[|a| + k] == t[k];
      NextQuoteShift(a, t, k + 1);
      EmphFromShift(a, t, k + 1);
    }
  }

  /** A quote-free prefix passes through the emphasis rewriter unchanged. */
  lemma {:induction false} EmphLoopPrefix(a: string, t: string)
    requires '\'' !in a
    ensures EmphLoop(a + t) == a + EmphLoop(t)
    decreases Occurrences(t, '\'')
  {
    EmphFromSkip(a, t, 0);
    EmphFromShift(a, t, 0);
    var r := EmphFrom(t, 0);
    if r.Some? {
      var (i, j) := r.value;
      EmphFromFound(t, 0);
      EmphStepQuotes(t, i, j);
      EmphStepShift(a, t, i, j);
      EmphLoopPrefix(a, EmphStep(t, i, j));
    }
  }

  /** A rewrite behind a prefix leaves the prefix alone. */
  lemma EmphStepShift(a: string, t: string, i: nat, j: nat)
    requires i + 2 <= j < |t|
    ensures EmphStep(a + t, |a| + i, |a| + j) == a + EmphStep(t, i, j)
  {
    ConcatSlices(a, t, i, j);
  }

  lemma ConcatSlices(a: string, t: string, i: nat, j: nat)
    requires i < j < |t|
    ensures (a + t)[..|a| + i] == a + t[..i] && (a + t)[|a| + i + 1..|a| + j] == t[i + 1..j] && (a + t)[|a| + j + 1..] == t[j + 1..]
  {
  }

  /** `pre'word'post`, with no quote in `pre` or `word` and `word` not
      empty, becomes `pre\textit{word}` followed by the rewritten `post`. */
  lemma EmphPair(pre: string, word: string, post: string)
    requires '\'' !in pre && '\'' !in word && |word| > 0
    ensures EmphLoop(pre + "'" + word + "'" + post) == pre + "\\textit{" + word + "}" + EmphLoop(post)
  {
    var x := "'" + word + "'" + post;
    assert pre + "'" + word + "'" + post == pre + x;
    EmphLoopPrefix(pre, x);
    var a := "\\textit{" + word + "}";
    EmphQuoted(word, post);
    EmphFromFound(x, 0);
    EmphStepQuotes(x, 0, |word| + 1);
    assert EmphLoop(x) == EmphLoop(a + post);
    assert '\'' !in a;
    EmphLoopPrefix(a, post);
  }

  /** The search finds the quotes around a leading quoted word, and the
      rewrite puts `\textit{…}` in their place. */
  lemma EmphQuoted(word: string, post: string)
    requires '\'' !in word && |word| > 0
    ensures var x := "'" + word + "'" + post;
            |word| + 1 < |x| &&
            EmphFrom(x, 0) == Some((0, |word| + 1)) &&
            EmphStep(x, 0, |word| + 1) == "\\textit{" + word + "}" + post
  {
    var x := "'" + word + "'" + post;
    assert x[0] == '\'' && x[|word| + 1] == '\'';
    assert Avoids(x, 1, |word| + 1, '\'') by {
      forall q | 1 <= q < |word| + 1 ensures x[q] != '\'' { assert x[q] == word[q - 1]; }
    }
    assert NextOf(x, '\'', 1) == Some(|word| + 1);
    assert x[1..|word| + 1] == word;
    assert x[|word| + 2..] == post;
  }

  // ---------------------------------------------------------------------
  // The replacement table

  /** `s` contains `p`. */
  ghost predicate Occurs(s: string, p: string) {
    exists k :: At(s, k, p)
  }

  /** `s.replace(pat, rep)`: non-overlapping occurrences, left to right. */
  function ReplaceAll(s: string, pat: string, rep: string): (r: string)
    requires |pat| > 0
    ensures !Occurs(s, pat) ==> r == s
    decreases |s|
  {
    if |s| < |pat| then s
    else if s[..|pat|] == pat then
      assert At(s, 0, pat);
      rep + ReplaceAll(s[|pat|..], pat, rep)
    else
      assert forall k :: At(s[1..], k, pat) ==> At(s, k + 1, pat) by {
        forall k | At(s[1..], k, pat) ensures At(s, k + 1, pat) { assert s[1..][k..k + |pat|] == s[k + 1..k + 1 + |pat|]; }
      }
      assert s == [s[0]] + s[1..];
      [s[0]] + ReplaceAll(s[1..], pat, rep)
  }

  /** A pattern whose first character is absent does not occur. */
  lemma NoOccurs(s: string, p: string)
    requires |p| > 0 && p[0] !in s
    ensures !Occurs(s, p)
  {
    forall k | At(s, k, p) ensures false { }
  }

  /** The replacements `_` to `\_`, `<=` to `$\leq$`, `>=` to `$\geq$`,
      `<` to `$<$` and `>` to `$>$`, applied in that order. */
  function Escape(s: string): string {
    var s1 := ReplaceAll(s, "_", "\\_");
    var s2 := ReplaceAll(s1, "<=", "$\\leq$");
    var s3 := ReplaceAll(s2, ">=", "$\\geq$");
    var s4 := ReplaceAll(s3, "<", "$<$");
    ReplaceAll(s4, ">", "$>$")
  }

  /** Text without `_`, `<` or `>` needs no escaping. */
  lemma EscapeNothing(s: string)
    requires '_' !in s && '<' !in s && '>' !in s
    ensures Escape(s) == s
  {
    NoOccurs(s, "_");
    NoOccurs(s, "<=");
    NoOccurs(s, ">=");
    NoOccurs(s, "<");
    NoOccurs(s, ">");
  }

  /** The replacements as the loop over the dictionary applies them: in the
      dictionary's iteration order, which for these five keys under
      CPython 2.7's string hash is `>`, `<=`, `>=`, `_`, `<`.  The `>`
      replacement runs first and consumes the `>` of every `>=`. */
  function EscapeAsWritten(s: string): string {
    var s1 := ReplaceAll(s, ">", "$>$");
    var s2 := ReplaceAll(s1, "<=", "$\\leq$");
    var s3 := ReplaceAll(s2, ">=", "$\\geq$");
    var s4 := ReplaceAll(s3, "_", "\\_");
    ReplaceAll(s4, "<", "$<$")
  }

  /** `ReplaceAll` on a text that starts with the pattern. */
  lemma ReplaceHead(pat: string, rep: string, b: string)
    requires |pat| > 0
    ensures ReplaceAll(pat + b, pat, rep) == rep + ReplaceAll(b, pat, rep)
  {
    var s := pat + b;
    assert s[..|pat|] == pat && s[|pat|..] == b;
  }

  /** `ReplaceAll` on a text whose first character does not start the
      pattern. */
  lemma ReplaceSkip(s: string, pat: string, rep: string)
    requires |pat| > 0 && |s| > 0 && s[0] != pat[0]
    ensures ReplaceAll(s, pat, rep) == [s[0]] + ReplaceAll(s[1..], pat, rep)
  {
    if |s| >= |pat| {
      assert s[..|pat|][0] == s[0];
    }
  }

  /** A single occurrence of `pat` between two texts that do not hold its
      first character is the only one replaced. */
  lemma {:induction false} ReplaceOnce(a: string, pat: string, rep: string, b: string)
    requires |pat| > 0 && pat[0] !in a && pat[0] !in b
    ensures ReplaceAll(a + pat + b, pat, rep) == a + rep + b
    decreases |a|
  {
    if |a| == 0 {
      assert a + pat + b == pat + b;
      ReplaceHead(pat, rep, b);
      NoOccurs(b, pat);
    } else {
      var s, a' := a + pat + b, a[1..];
      assert s[0] == a[0];
      assert a[0] in a;
      ReplaceSkip(s, pat, rep);
      assert s[1..] == a' + pat + b;
      assert pat[0] !in a' by {
        forall c | c in a' ensures c in a { }
      }
      ReplaceOnce(a', pat, rep, b);
      var tail := ReplaceAll(s[1..], pat, rep);
      assert tail == a' + rep + b;
      assert ReplaceAll(s, pat, rep) == [a[0]] + tail;
      ConsAssoc(a, rep, b);
    }
  }

  /** Putting the first character back in front. */
  lemma ConsAssoc(a: string, rep: string, b: string)
    requires |a| > 0
    ensures [a[0]] + (a[1..] + rep + b) == a + rep + b
  {
    assert a == [a[0]] + a[1..];
  }

  /** In the corrected order a `>=` between plain texts becomes `$\geq$`. */
  lemma EscapeGeq(a: string, b: string)
    requires '_' !in a && '<' !in a && '>' !in a
    requires '_' !in b && '<' !in b && '>' !in b
    ensures Escape(a + ">=" + b) == a + "$\\geq$" + b
  {
    var s := a + ">=" + b;
    NotIn3('_', a, ">=", b);
    NotIn3('<', a, ">=", b);
    NoOccurs(s, "_");
    NoOccurs(s, "<=");
    assert ReplaceAll(s, "_", "\\_") == s;
    assert ReplaceAll(s, "<=", "$\\leq$") == s;
    ReplaceOnce(a, ">=", "$\\geq$", b);
    var t := a + "$\\geq$" + b;
    NotIn3('<', a, "$\\geq$", b);
    NotIn3('>', a, "$\\geq$", b);
    NoOccurs(t, "<");
    NoOccurs(t, ">");
    assert ReplaceAll(t, "<", "$<$") == t;
  }

  /** A character in none of three texts is not in their concatenation. */
  lemma NotIn3(c: char, a: string, m: string, b: string)
    requires c !in a && c !in m && c !in b
    ensures c !in a + m + b
  {
  }

  /** As written, the same `>=` comes out as `$>$=`: the `>` was replaced
      before the `>=` entry was reached. */
  lemma GeqAsWritten(a: string, b: string)
    requires '_' !in a && '<' !in a && '>' !in a
    requires '_' !in b && '<' !in b && '>' !in b
    ensures EscapeAsWritten(a + ">=" + b) == a + "$>$=" + b
  {
    assert a + ">=" + b == a + ">" + ("=" + b);
    assert '>' !in "=" + b;
    ReplaceOnce(a, ">", "$>$", "=" + b);
    var t := a + "$>$" + ("=" + b);
    assert t == a + "$>$=" + b;
    assert forall c :: c in t ==> c in a || c in b || c in "$>$=";
    NoOccurs(t, "<=");
    NoGeq(a, b);
    NoOccurs(t, "_");
    NoOccurs(t, "<");
  }

  /** The `>` that `$>$` leaves is followed by `$`, so no `>=` remains. */
  lemma NoGeq(a: string, b: string)
    requires '>' !in a && '>' !in b
    ensures !Occurs(a + "$>$=" + b, ">=")
  {
    var t := a + "$>$=" + b;
    forall k | 0 <= k < |t| && k != |a| + 1 ensures t[k] != '>' {
      if k < |a| {
        assert t[k] == a[k] && a[k] in a;
      } else if k >= |a| + 4 {
        assert t[k] == b[k - |a| - 4] && b[k - |a| - 4] in b;
      }
    }
    forall k | 0 <= k < |t| ensures !At(t, k, ">=") {
      if k + 2 <= |t| {
        assert t[k..k + 2][0] == t[k];
        assert t[|a| + 2] == '$';
        assert t[k..k + 2][1] == t[k + 1];
      }
    }
    assert forall k :: At(t, k, ">=") ==> 0 <= k < |t|;
  }

  /** The smallest instance: `>=` alone. */
  lemma GeqExample()
    ensures EscapeAsWritten(">=") == "$>$=" && Escape(">=") == "$\\geq$"
  {
    var s := "" + ">=" + "";
    assert s == ">=";
    GeqAsWritten("", "");
    EscapeGeq("", "");
  }

  /** The escape of `_` alone, character by character. */
  function EscapeUnderscores(s: string): (r: string)
  {
    if |s| == 0 then [] else (if s[0] == '_' then "\\_" else [s[0]]) + EscapeUnderscores(s[1..])
  }

  /** `replace('_', '\\_')` puts a backslash before every underscore. */
  lemma {:induction false} ReplaceUnderscores(s: string)
    ensures ReplaceAll(s, "_", "\\_") == EscapeUnderscores(s)
  {
    if |s| > 0 { ReplaceUnderscores(s[1..]); }
  }

  /** On text without `<` or `>`, escaping only puts a backslash before
      every underscore. */
  lemma EscapeOnlyUnderscores(s: string)
    requires '<' !in s && '>' !in s
    ensures Escape(s) == EscapeUnderscores(s)
  {
    ReplaceUnderscores(s);
    var s1 := EscapeUnderscores(s);
    NoAngles(s);
    NoOccurs(s1, "<=");
    NoOccurs(s1, ">=");
    NoOccurs(s1, "<");
    NoOccurs(s1, ">");
  }

  lemma {:induction false} NoAngles(s: string)
    requires '<' !in s && '>' !in s
    ensures '<' !in EscapeUnderscores(s) && '>' !in EscapeUnderscores(s)
  {
    if |s| > 0 { assert s[0] in s; NoAngles(s[1..]); }
  }

  lemma {:induction false} NoUnderscores(s: string)
    requires '_' !in s
    ensures EscapeUnderscores(s) == s
  {
    if |s| > 0 { NoUnderscores(s[1..]); assert s == [s[0]] + s[1..]; }
  }

  // ---------------------------------------------------------------------
  // `_parse_inline_real` and `_parse_inline`

  /** `_parse_inline_real(part)`: cite, comment and emphasis rewriting, then
      the escapes; the flag tells whether a cite was rewritten (the
      `_inline_strong` rewriter is not part of this model). */
  function ParseInlineReal(part: string): (r: (string, bool))
    ensures r.1 <==> CiteSearch(part).Some?
  {
    var (p1, cited) := CiteLoop(part);
    (Escape(EmphLoop(CommentLoop(p1))), cited)
  }

  /** `search` for `[$][^$]*[$]`: the first `$` and the one after it. */
  function MathSearch(s: string): (r: Option<(nat, nat)>)
    ensures r.Some? ==> r.value.0 < r.value.1 < |s| && s[r.value.0] == '$' && s[r.value.1] == '$' &&
                        Avoids(s, 0, r.value.0, '$') && Avoids(s, r.value.0 + 1, r.value.1, '$')
    ensures r.None? ==> forall i, j :: 0 <= i < j < |s| && s[i] == '$' ==> s[j] != '$'
  {
    match NextOf(s, '$', 0)
    case None => None
    case Some(i) =>
      match NextOf(s, '$', i + 1)
      case None => None
      case Some(j) => Some((i, j))
  }

  /** The loop of `_parse_inline` before the final unmarking: the text
      before each math segment is rewritten by `f`, the segment is copied.
      The rewriter is a parameter so that the splitting can be reasoned
      about apart from what the rewriting does. */
  function SegmentLoop(f: string -> (string, bool), line: string): (r: (string, bool))
    decreases |line|
  {
    match MathSearch(line)
    case None => f(line)
    case Some((i, j)) =>
      var a := f(line[..i]);
      var b := SegmentLoop(f, line[j + 1..]);
      (a.0 + line[i..j + 1] + b.0, a.1 || b.1)
  }

  /** `_parse_inline(line)`, with the citations flag it raises. */
  function ParseInline(line: string): (r: (string, bool))
  {
    var p := SegmentLoop(ParseInlineReal, line);
    (Unmark(p.0), p.1)
  }

  /** A line with fewer than two `$` is rewritten as a whole. */
  lemma ParseInlineNoMath(t: string)
    requires forall i, j :: 0 <= i < j < |t| && t[i] == '$' ==> t[j] != '$'
    ensures ParseInline(t) == (Unmark(ParseInlineReal(t).0), ParseInlineReal(t).1)
  {
  }

  /** A math segment after `$`-free text is copied as it is; only the text
      in front of it and the rest of the line are rewritten. */
  lemma ParseInlineSplit(t: string, x: string, rest: string)
    requires '$' !in t && '$' !in x
    ensures ParseInline(t + "$" + x + "$" + rest).0 ==
              Unmark(ParseInlineReal(t).0) + "$" + Unmark(x) + "$" + ParseInline(rest).0
    ensures ParseInline(t + "$" + x + "$" + rest).1 == (ParseInlineReal(t).1 || ParseInline(rest).1)
  {
    UnmarkedSplit(ParseInlineReal, t, x, rest);
  }

  /** `SegmentLoop` then unmarking, split at the first math segment. */
  lemma UnmarkedSplit(f: string -> (string, bool), t: string, x: string, rest: string)
    requires '$' !in t && '$' !in x
    ensures var whole, tail := SegmentLoop(f, t + "$" + x + "$" + rest), SegmentLoop(f, rest);
            Unmark(whole.0) == Unmark(f(t).0) + "$" + Unmark(x) + "$" + Unmark(tail.0) &&
            whole.1 == (f(t).1 || tail.1)
  {
    var a, b := f(t).0, SegmentLoop(f, rest).0;
    SegmentLoopSplit(f, t, x, rest);
    UnmarkAppend(a + "$" + x + "$", b);
    UnmarkAppend(a + "$" + x, "$");
    UnmarkAppend(a + "$", x);
    UnmarkAppend(a, "$");
  }

  /** Splitting at the first math segment, whatever the rewriter. */
  lemma SegmentLoopSplit(f: string -> (string, bool), t: string, x: string, rest: string)
    requires '$' !in t && '$' !in x
    ensures SegmentLoop(f, t + "$" + x + "$" + rest) ==
              (f(t).0 + "$" + x + "$" + SegmentLoop(f, rest).0, f(t).1 || SegmentLoop(f, rest).1)
  {
    var line := t + "$" + x + "$" + rest;
    MathSearchSplit(t, x, rest);
    MathSlices(t, x, rest);
    var a, b := f(t), SegmentLoop(f, rest);
    assert SegmentLoop(f, line) == (a.0 + line[|t|..|t| + 2 + |x|] + b.0, a.1 || b.1);
    assert a.0 + ("$" + x + "$") + b.0 == a.0 + "$" + x + "$" + b.0;
  }

  lemma MathSearchSplit(t: string, x: string, rest: string)
    requires '$' !in t && '$' !in x
    ensures MathSearch(t + "$" + x + "$" + rest) == Some((|t|, |t| + 1 + |x|))
  {
    var line := t + "$" + x + "$" + rest;
    var i, j := |t|, |t| + 1 + |x|;
    assert line[i] == '$' && line[j] == '$';
    assert Avoids(line, 0, i, '$') by { forall k | 0 <= k < i ensures line[k] != '$' { assert line[k] == t[k]; } }
    assert Avoids(line, i + 1, j, '$') by { forall k | i + 1 <= k < j ensures line[k] != '$' { assert line[k] == x[k - i - 1]; } }
  }

  lemma MathSlices(t: string, x: string, rest: string)
    ensures var line, i, j := t + "$" + x + "$" + rest, |t|, |t| + 1 + |x|;
            line[..i] == t && line[i..j + 1] == "$" + x + "$" && line[j + 1..] == rest
  {
  }
}
