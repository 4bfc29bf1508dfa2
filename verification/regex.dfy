/** A small backtracking matcher, exactly as expressive as the patterns the
    validators compile: literals, one-character classes, greedy or lazy
    repetition of a class, and capture groups.  A pattern is a flat node
    list in which `Open(g)`/`Close(g)` bracket group `g`.  Alternatives are
    tried in the order Python's `re` engine tries them (greedy: longest
    repetition first; lazy: shortest first), so the first match found is the
    match `re` returns. */
module Regex {
  import opened Wrappers

  /** Python 2's `\s` for byte strings: space, tab, newline, return,
      vertical tab and form feed. */
  predicate IsSpace(c: char) {
    c == ' ' || c == '\t' || c == '\n' || c == '\r' || c == '\U{000B}' || c == '\U{000C}'
  }

  /** One-character classes: `.`, `\s`, `[^\s]`, `[abc]`, `[^abc]`. */
  datatype Class = Dot | Space | NotSpace | OneOf(cs: seq<char>) | NoneOf(cs: seq<char>)

  predicate InClass(c: char, k: Class) {
    match k
    case Dot => c != '\n'
    case Space => IsSpace(c)
    case NotSpace => !IsSpace(c)
    case OneOf(cs) => c in cs
    case NoneOf(cs) => c !in cs
  }

  datatype Node =
    | Lit(c: char)                    // a literal character
    | One(k: Class)                   // exactly one character of a class
    | Star(k: Class, greedy: bool)    // `k*` (greedy) or `k*?` (lazy)
    | Open(g: nat)                    // start of capture group g
    | Close(g: nat)                   // end of capture group g

  type Pattern = seq<Node>

  /** A half-open span of offsets into the subject string. */
  datatype Span = Span(lo: nat, hi: nat)

  type Caps = map<nat, Span>

  /** A match: `start`/`end` of group 0 and the spans of the numbered groups. */
  datatype Match = Match(start: nat, end: nat, caps: Caps) {
    /** `m.span(idx)`; group 0 is the whole match. */
    function Group(idx: nat): Span
      requires idx == 0 || idx in caps
    {
      if idx == 0 then Span(start, end) else caps[idx]
    }
  }

  /** Length of the longest run of `k` characters starting at `i`. */
  function Run(k: Class, s: string, i: nat): (n: nat)
    requires i <= |s|
    ensures i + n <= |s|
    ensures forall j :: i <= j < i + n ==> InClass(s[j], k)
    ensures i + n < |s| ==> !InClass(s[i + n], k)
    decreases |s| - i
  {
    if i < |s| && InClass(s[i], k) then 1 + Run(k, s, i + 1) else 0
  }

  /** Match pattern `p` at offset `i`, with the groups captured so far.
      Returns the end offset and the captures of the first match in
      backtracking order. */
  function MatchFrom(p: Pattern, s: string, i: nat, caps: Caps): (r: Option<(nat, Caps)>)
    requires i <= |s|
    ensures r.Some? ==> i <= r.value.0 <= |s|
    decreases |p|, |s| + 2
  {
    if |p| == 0 then Some((i, caps))
    else match p[0]
      case Lit(c) =>
        if i < |s| && s[i] == c then MatchFrom(p[1..], s, i + 1, caps) else None
      case One(k) =>
        if i < |s| && InClass(s[i], k) then MatchFrom(p[1..], s, i + 1, caps) else None
      case Open(g) =>
        MatchFrom(p[1..], s, i, caps[g := Span(i, i)])
      case Close(g) =>
        MatchFrom(p[1..], s, i, caps[g := Span(if g in caps then caps[g].lo else i, i)])
      case Star(k, greedy) =>
        var n := Run(k, s, i);
        if greedy then Greedy(p[1..], s, i, n, caps) else Lazy(p[1..], s, i, 0, n, caps)
  }

  /** A greedy repetition that may take up to `n` characters: try `n`,
      then `n - 1`, ..., then `0`. */
  function Greedy(rest: Pattern, s: string, i: nat, n: nat, caps: Caps): (r: Option<(nat, Caps)>)
    requires i + n <= |s|
    ensures r.Some? ==> i <= r.value.0 <= |s|
    decreases |rest| + 1, n
  {
    match MatchFrom(rest, s, i + n, caps)
    case Some(h) => Some(h)
    case None => if n == 0 then None else Greedy(rest, s, i, n - 1, caps)
  }

  /** A lazy repetition that may take up to `n` characters: try `k`,
      then `k + 1`, ..., then `n`. */
  function Lazy(rest: Pattern, s: string, i: nat, k: nat, n: nat, caps: Caps): (r: Option<(nat, Caps)>)
    requires k <= n && i + n <= |s|
    ensures r.Some? ==> i + k <= r.value.0 <= |s|
    decreases |rest| + 1, n - k
  {
    match MatchFrom(rest, s, i + k, caps)
    case Some(h) => Some(h)
    case None => if k == n then None else Lazy(rest, s, i, k + 1, n, caps)
  }

  /** `pattern.match(s, i)`: the match anchored at offset `i`, if any. */
  function MatchAt(p: Pattern, s: string, i: nat): (r: Option<Match>)
    requires i <= |s|
    ensures r.Some? ==> r.value.start == i && i <= r.value.end <= |s|
  {
    match MatchFrom(p, s, i, map[])
    case None => None
    case Some(h) => Some(Match(i, h.0, h.1))
  }

  /** `pattern.search(s, i)`: the match at the smallest offset `>= i`. */
  function Search(p: Pattern, s: string, i: nat): (r: Option<Match>)
    requires i <= |s|
    ensures r.Some? ==> i <= r.value.start <= r.value.end <= |s|
    ensures r.Some? ==> MatchAt(p, s, r.value.start) == r
    ensures forall q :: i <= q <= |s| && (r.None? || q < r.value.start) ==> MatchAt(p, s, q).None?
    decreases |s| - i
  {
    match MatchAt(p, s, i)
    case Some(m) => Some(m)
    case None => if i == |s| then None else Search(p, s, i + 1)
  }

  /** Where `finditer` resumes after a match: at its end, or one further
      after an empty match. */
  function Resume(m: Match): nat {
    if m.end == m.start then m.end + 1 else m.end
  }

  /** `pattern.finditer(s)` from offset `pos`: successive searches, each
      resuming where the previous match ended. */
  function FindFrom(p: Pattern, s: string, pos: nat): (r: seq<Match>)
    ensures forall k :: 0 <= k < |r| ==> pos <= r[k].start <= r[k].end <= |s|
    ensures forall k :: 0 <= k < |r| ==> MatchAt(p, s, r[k].start) == Some(r[k])
    ensures forall k :: 0 <= k < |r| - 1 ==> r[k].end <= r[k + 1].start && r[k].start < r[k + 1].start
    ensures forall q :: pos <= q <= |s| && (|r| == 0 || q < r[0].start) ==> MatchAt(p, s, q).None?
    decreases |s| + 1 - pos
  {
    if pos > |s| then []
    else match Search(p, s, pos)
      case None => []
      case Some(m) =>
        var tail := FindFrom(p, s, Resume(m));
        ConsBounds(s, pos, m, tail);
        ConsMatches(p, s, m, tail);
        ConsOrdered(m, tail);
        [m] + tail
  }

  /** No match is skipped: none starts between the resume point of one
      match and the start of the next, nor after the resume point of the
      last. */
  predicate NoneSkipped(p: Pattern, s: string, r: seq<Match>)
    requires forall k :: 0 <= k < |r| ==> r[k].start <= |s|
  {
    (forall k, q :: 0 <= k < |r| - 1 && Resume(r[k]) <= q < r[k + 1].start ==> MatchAt(p, s, q).None?) &&
    (|r| > 0 ==> forall q :: Resume(r[|r| - 1]) <= q <= |s| ==> MatchAt(p, s, q).None?)
  }

  /** `finditer` from `pos` skips no match after its first one. */
  lemma {:induction false} FindFromNoneSkipped(p: Pattern, s: string, pos: nat)
    ensures NoneSkipped(p, s, FindFrom(p, s, pos))
    decreases |s| + 1 - pos
  {
    if pos <= |s| {
      match Search(p, s, pos)
      case None =>
      case Some(m) =>
        FindFromNoneSkipped(p, s, Resume(m));
        FindFromStep(p, s, pos, m);
    }
  }

  /** One search step of `finditer` keeps no match skipped. */
  lemma FindFromStep(p: Pattern, s: string, pos: nat, m: Match)
    requires pos <= |s| && Search(p, s, pos) == Some(m)
    requires NoneSkipped(p, s, FindFrom(p, s, Resume(m)))
    ensures NoneSkipped(p, s, FindFrom(p, s, pos))
  {
    var tail := FindFrom(p, s, Resume(m));
    assert FindFrom(p, s, pos) == [m] + tail;
    ConsComplete(p, s, m, tail);
  }

  /** No match is skipped between or after the matches, one match further
      out: `tail` is what the search resuming after `m` found. */
  lemma ConsComplete(p: Pattern, s: string, m: Match, tail: seq<Match>)
    requires forall k :: 0 <= k < |tail| ==> tail[k].start <= |s|
    requires forall q :: Resume(m) <= q <= |s| && (|tail| == 0 || q < tail[0].start) ==> MatchAt(p, s, q).None?
    requires NoneSkipped(p, s, tail)
    requires m.start <= |s|
    ensures NoneSkipped(p, s, [m] + tail)
  {
    var r := [m] + tail;
    forall k, q | 0 <= k < |r| - 1 && Resume(r[k]) <= q < r[k + 1].start
      ensures MatchAt(p, s, q).None?
    {
      if k > 0 {
        assert r[k] == tail[k - 1] && r[k + 1] == tail[k];
      } else {
        assert r[1] == tail[0];
      }
    }
    if |tail| > 0 {
      assert r[|r| - 1] == tail[|tail| - 1];
    }
  }

  /** The bounds of `finditer`'s matches, one match further out. */
  lemma ConsBounds(s: string, pos: nat, m: Match, tail: seq<Match>)
    requires pos <= m.start <= m.end <= |s|
    requires forall k :: 0 <= k < |tail| ==> Resume(m) <= tail[k].start <= tail[k].end <= |s|
    ensures var r := [m] + tail; forall k :: 0 <= k < |r| ==> pos <= r[k].start <= r[k].end <= |s|
  {
    var r := [m] + tail;
    forall k | 0 <= k < |r| ensures pos <= r[k].start <= r[k].end <= |s| {
      if k > 0 { assert r[k] == tail[k - 1]; }
    }
  }

  /** Every element is the match anchored at its start, one match further out. */
  lemma ConsMatches(p: Pattern, s: string, m: Match, tail: seq<Match>)
    requires m.start <= |s| && MatchAt(p, s, m.start) == Some(m)
    requires forall k :: 0 <= k < |tail| ==> tail[k].start <= |s| && MatchAt(p, s, tail[k].start) == Some(tail[k])
    ensures var r := [m] + tail; forall k :: 0 <= k < |r| ==> r[k].start <= |s| && MatchAt(p, s, r[k].start) == Some(r[k])
  {
    var r := [m] + tail;
    forall k | 0 <= k < |r| ensures r[k].start <= |s| && MatchAt(p, s, r[k].start) == Some(r[k]) {
      if k > 0 { assert r[k] == tail[k - 1]; }
    }
  }

  /** Successive matches do not overlap and move forward, one match further out. */
  lemma ConsOrdered(m: Match, tail: seq<Match>)
    requires m.start <= m.end
    requires |tail| > 0 ==> Resume(m) <= tail[0].start
    requires forall k :: 0 <= k < |tail| - 1 ==> tail[k].end <= tail[k + 1].start && tail[k].start < tail[k + 1].start
    ensures var r := [m] + tail; forall k :: 0 <= k < |r| - 1 ==> r[k].end <= r[k + 1].start && r[k].start < r[k + 1].start
  {
    var r := [m] + tail;
    forall k | 0 <= k < |r| - 1 ensures r[k].end <= r[k + 1].start && r[k].start < r[k + 1].start {
      if k > 0 { assert r[k] == tail[k - 1] && r[k + 1] == tail[k]; }
    }
  }

  /** No match of `p` starts strictly between two consecutive elements of `r`. */
  predicate NoMatchInGaps(p: Pattern, s: string, r: seq<Match>) {
    forall k, q :: 0 <= k < |r| - 1 && r[k].end < q < r[k + 1].start && q <= |s| ==> MatchAt(p, s, q).None?
  }

  /** No match starts strictly between two consecutive matches of `finditer`. */
  lemma {:induction false} FindFromGaps(p: Pattern, s: string, pos: nat)
    ensures NoMatchInGaps(p, s, FindFrom(p, s, pos))
    decreases |s| + 1 - pos
  {
    if pos <= |s| {
      match Search(p, s, pos)
      case None =>
      case Some(m) =>
        var tail := FindFrom(p, s, Resume(m));
        FindFromGaps(p, s, Resume(m));
        assert FindFrom(p, s, pos) == [m] + tail;
        ConsGaps(p, s, m, tail);
    }
  }

  /** The gaps of `[m] + tail` are the gap after `m` and those of `tail`. */
  lemma ConsGaps(p: Pattern, s: string, m: Match, tail: seq<Match>)
    requires NoMatchInGaps(p, s, tail)
    requires forall q :: Resume(m) <= q <= |s| && (|tail| == 0 || q < tail[0].start) ==> MatchAt(p, s, q).None?
    ensures NoMatchInGaps(p, s, [m] + tail)
  {
    var r := [m] + tail;
    forall k, q | 0 <= k < |r| - 1 && r[k].end < q < r[k + 1].start && q <= |s|
      ensures MatchAt(p, s, q).None?
    {
      if k > 0 {
        assert r[k] == tail[k - 1] && r[k + 1] == tail[k];
      } else {
        assert r[1] == tail[0];
      }
    }
  }

  /** `pattern.finditer(s)`: all non-overlapping matches, left to right. */
  function FindAll(p: Pattern, s: string): (r: seq<Match>)
    ensures forall k :: 0 <= k < |r| ==> r[k].start <= r[k].end <= |s|
    ensures forall k :: 0 <= k < |r| ==> MatchAt(p, s, r[k].start) == Some(r[k])
    ensures forall k :: 0 <= k < |r| - 1 ==> r[k].end <= r[k + 1].start
    ensures forall q :: 0 <= q <= |s| && (|r| == 0 || q < r[0].start) ==> MatchAt(p, s, q).None?
    ensures NoneSkipped(p, s, r)
  {
    FindFromNoneSkipped(p, s, 0);
    FindFrom(p, s, 0)
  }

  /** `finditer` misses no match: every offset where the pattern matches is
      the start of a returned match or lies inside one (or, after an empty
      match, is the offset `finditer` steps over). */
  lemma {:induction false} FindAllComplete(p: Pattern, s: string, q: nat)
    requires q <= |s| && MatchAt(p, s, q).Some?
    ensures var r := FindAll(p, s);
            exists k :: 0 <= k < |r| && r[k].start <= q < Resume(r[k])
  {
    var r := FindAll(p, s);
    assert |r| > 0 && r[0].start <= q;
    var k := LastStartAtMost(r, q);
    if Resume(r[k]) <= q {
      assert false;
    }
  }

  /** The last match starting at or before `q`, in a list ordered by start. */
  lemma {:induction false} LastStartAtMost(r: seq<Match>, q: nat) returns (k: nat)
    requires |r| > 0 && r[0].start <= q
    ensures k < |r| && r[k].start <= q
    ensures k < |r| - 1 ==> q < r[k + 1].start
    decreases |r|
  {
    if |r| == 1 || q < r[1].start {
      k := 0;
    } else {
      var j := LastStartAtMost(r[1..], q);
      k := j + 1;
    }
  }

  /** Captures recorded so far lie inside `[lo, i]`. */
  predicate CapsWithin(caps: Caps, lo: nat, i: nat) {
    forall g :: g in caps ==> lo <= caps[g].lo <= caps[g].hi <= i
  }

  /** Every group a match records lies inside the match. */
  lemma {:induction false} MatchFromCapsWithin(p: Pattern, s: string, lo: nat, i: nat, caps: Caps)
    requires lo <= i <= |s| && CapsWithin(caps, lo, i)
    ensures var r := MatchFrom(p, s, i, caps);
            r.Some? ==> CapsWithin(r.value.1, lo, r.value.0)
    decreases |p|, |s| + 2
  {
    if |p| > 0 {
      match p[0]
      case Lit(c) =>
        if i < |s| && s[i] == c { MatchFromCapsWithin(p[1..], s, lo, i + 1, caps); }
      case One(k) =>
        if i < |s| && InClass(s[i], k) { MatchFromCapsWithin(p[1..], s, lo, i + 1, caps); }
      case Open(g) =>
        MatchFromCapsWithin(p[1..], s, lo, i, caps[g := Span(i, i)]);
      case Close(g) =>
        MatchFromCapsWithin(p[1..], s, lo, i, caps[g := Span(if g in caps then caps[g].lo else i, i)]);
      case Star(k, greedy) =>
        var n := Run(k, s, i);
        if greedy { GreedyCapsWithin(p[1..], s, lo, i, n, caps); }
        else { LazyCapsWithin(p[1..], s, lo, i, 0, n, caps); }
    }
  }

  lemma {:induction false} GreedyCapsWithin(rest: Pattern, s: string, lo: nat, i: nat, n: nat, caps: Caps)
    requires lo <= i && i + n <= |s| && CapsWithin(caps, lo, i)
    ensures var r := Greedy(rest, s, i, n, caps);
            r.Some? ==> CapsWithin(r.value.1, lo, r.value.0)
    decreases |rest| + 1, n
  {
    MatchFromCapsWithin(rest, s, lo, i + n, caps);
    if n > 0 { GreedyCapsWithin(rest, s, lo, i, n - 1, caps); }
  }

  lemma {:induction false} LazyCapsWithin(rest: Pattern, s: string, lo: nat, i: nat, k: nat, n: nat, caps: Caps)
    requires lo <= i && k <= n && i + n <= |s| && CapsWithin(caps, lo, i)
    ensures var r := Lazy(rest, s, i, k, n, caps);
            r.Some? ==> CapsWithin(r.value.1, lo, r.value.0)
    decreases |rest| + 1, n - k
  {
    MatchFromCapsWithin(rest, s, lo, i + k, caps);
    if k < n { LazyCapsWithin(rest, s, lo, i, k + 1, n, caps); }
  }

  /** Every group of a match found at `i` spans a sub-range of the match. */
  lemma MatchAtGroupsWithin(p: Pattern, s: string, i: nat)
    requires i <= |s|
    ensures var r := MatchAt(p, s, i);
            r.Some? ==> forall g :: g in r.value.caps ==> i <= r.value.caps[g].lo <= r.value.caps[g].hi <= r.value.end
  {
    MatchFromCapsWithin(p, s, i, i, map[]);
  }

  /** Every group a pattern closes is recorded by any successful match, and
      captures recorded earlier are kept. */
  lemma {:induction false} MatchFromRecordsClosed(p: Pattern, s: string, i: nat, caps: Caps)
    requires i <= |s|
    ensures var r := MatchFrom(p, s, i, caps);
            r.Some? ==> caps.Keys <= r.value.1.Keys && forall g :: Close(g) in p ==> g in r.value.1
    decreases |p|, |s| + 2
  {
    if |p| > 0 {
      assert forall g :: Close(g) in p ==> p[0] == Close(g) || Close(g) in p[1..] by {
        assert p == [p[0]] + p[1..];
      }
      match p[0]
      case Lit(c) =>
        if i < |s| && s[i] == c { MatchFromRecordsClosed(p[1..], s, i + 1, caps); }
      case One(k) =>
        if i < |s| && InClass(s[i], k) { MatchFromRecordsClosed(p[1..], s, i + 1, caps); }
      case Open(g) =>
        MatchFromRecordsClosed(p[1..], s, i, caps[g := Span(i, i)]);
      case Close(g) =>
        MatchFromRecordsClosed(p[1..], s, i, caps[g := Span(if g in caps then caps[g].lo else i, i)]);
      case Star(k, greedy) =>
        var n := Run(k, s, i);
        if greedy { GreedyRecordsClosed(p[1..], s, i, n, caps); }
        else { LazyRecordsClosed(p[1..], s, i, 0, n, caps); }
    }
  }

  lemma {:induction false} GreedyRecordsClosed(rest: Pattern, s: string, i: nat, n: nat, caps: Caps)
    requires i + n <= |s|
    ensures var r := Greedy(rest, s, i, n, caps);
            r.Some? ==> caps.Keys <= r.value.1.Keys && forall g :: Close(g) in rest ==> g in r.value.1
    decreases |rest| + 1, n
  {
    MatchFromRecordsClosed(rest, s, i + n, caps);
    if n > 0 { GreedyRecordsClosed(rest, s, i, n - 1, caps); }
  }

  lemma {:induction false} LazyRecordsClosed(rest: Pattern, s: string, i: nat, k: nat, n: nat, caps: Caps)
    requires k <= n && i + n <= |s|
    ensures var r := Lazy(rest, s, i, k, n, caps);
            r.Some? ==> caps.Keys <= r.value.1.Keys && forall g :: Close(g) in rest ==> g in r.value.1
    decreases |rest| + 1, n - k
  {
    MatchFromRecordsClosed(rest, s, i + k, caps);
    if k < n { LazyRecordsClosed(rest, s, i, k + 1, n, caps); }
  }

  /** A match found at `i` has a span for every group the pattern closes, so
      `m.start(g)` is defined for each of them. */
  lemma MatchAtHasClosedGroups(p: Pattern, s: string, i: nat)
    requires i <= |s|
    ensures var r := MatchAt(p, s, i);
            r.Some? ==> forall g :: Close(g) in p ==> g in r.value.caps
  {
    MatchFromRecordsClosed(p, s, i, map[]);
  }

  /** The run of `k` in the cut-out text `s[i..e]` stops at the cut. */
  lemma {:induction false} RunCut(k: Class, s: string, t: string, i: nat, e: nat, j: nat)
    requires i <= j <= e <= |s| && t == s[i..e]
    ensures Run(k, t, j - i) == if Run(k, s, j) <= e - j then Run(k, s, j) else e - j
    decreases e - j
  {
    if j < e {
      assert t[j - i] == s[j];
      RunCut(k, s, t, i, e, j + 1);
    }
  }

  /** `r'`, found in the text cut out as `s[i..e]`, agrees with `r`, found
      in `s`: a failure stays a failure, and a match that ends inside the cut
      ends at the same place. */
  predicate CutAgrees(r: Option<(nat, Caps)>, r': Option<(nat, Caps)>, i: nat, e: nat) {
    (r.None? ==> r'.None?) && (r.Some? && r.value.0 <= e ==> r'.Some? && r'.value.0 + i == r.value.0)
  }

  /** Matching in the text cut out as `s[i..e]` agrees with matching in `s`
      (captures never steer the search, so they may differ). */
  lemma {:induction false} MatchFromCut(p: Pattern, s: string, t: string, i: nat, e: nat, j: nat, c: Caps, c': Caps)
    requires i <= j <= e <= |s| && t == s[i..e]
    ensures CutAgrees(MatchFrom(p, s, j, c), MatchFrom(p, t, j - i, c'), i, e)
    decreases |p|, |s| + 2
  {
    if |p| > 0 {
      match p[0]
      case Lit(ch) => LitCut(p, s, t, i, e, j, c, c');
      case One(k) => OneCut(p, s, t, i, e, j, c, c');
      case Open(g) =>
        MatchFromCut(p[1..], s, t, i, e, j, c[g := Span(j, j)], c'[g := Span(j - i, j - i)]);
      case Close(g) =>
        MatchFromCut(p[1..], s, t, i, e, j, c[g := Span(if g in c then c[g].lo else j, j)],
                     c'[g := Span(if g in c' then c'[g].lo else j - i, j - i)]);
      case Star(k, greedy) => StarCut(p, s, t, i, e, j, c, c');
    }
  }

  lemma {:induction false} LitCut(p: Pattern, s: string, t: string, i: nat, e: nat, j: nat, c: Caps, c': Caps)
    requires i <= j <= e <= |s| && t == s[i..e] && |p| > 0 && p[0].Lit?
    ensures CutAgrees(MatchFrom(p, s, j, c), MatchFrom(p, t, j - i, c'), i, e)
    decreases |p|, |s| + 1
  {
    if j < e && s[j] == p[0].c {
      assert t[j - i] == s[j];
      MatchFromCut(p[1..], s, t, i, e, j + 1, c, c');
    }
  }

  lemma {:induction false} OneCut(p: Pattern, s: string, t: string, i: nat, e: nat, j: nat, c: Caps, c': Caps)
    requires i <= j <= e <= |s| && t == s[i..e] && |p| > 0 && p[0].One?
    ensures CutAgrees(MatchFrom(p, s, j, c), MatchFrom(p, t, j - i, c'), i, e)
    decreases |p|, |s| + 1
  {
    if j < e && InClass(s[j], p[0].k) {
      assert t[j - i] == s[j];
      MatchFromCut(p[1..], s, t, i, e, j + 1, c, c');
    } else if j < e {
      assert t[j - i] == s[j];
    }
  }

  lemma {:induction false} StarCut(p: Pattern, s: string, t: string, i: nat, e: nat, j: nat, c: Caps, c': Caps)
    requires i <= j <= e <= |s| && t == s[i..e] && |p| > 0 && p[0].Star?
    ensures CutAgrees(MatchFrom(p, s, j, c), MatchFrom(p, t, j - i, c'), i, e)
    decreases |p|, |s| + 1
  {
    var n := Run(p[0].k, s, j);
    RunCut(p[0].k, s, t, i, e, j);
    if p[0].greedy {
      GreedyCut(p[1..], s, t, i, e, j, n, c, c');
    } else {
      LazyCut(p[1..], s, t, i, e, j, 0, n, c, c');
    }
  }

  lemma {:induction false} GreedyCut(rest: Pattern, s: string, t: string, i: nat, e: nat, j: nat, n: nat, c: Caps, c': Caps)
    requires i <= j <= e <= |s| && t == s[i..e] && j + n <= |s|
    ensures CutAgrees(Greedy(rest, s, j, n, c), Greedy(rest, t, j - i, if n <= e - j then n else e - j, c'), i, e)
    decreases |rest| + 1, n
  {
    if n <= e - j {
      MatchFromCut(rest, s, t, i, e, j + n, c, c');
      if n > 0 { GreedyCut(rest, s, t, i, e, j, n - 1, c, c'); }
    } else {
      var r := MatchFrom(rest, s, j + n, c);
      if r.None? {
        GreedyCut(rest, s, t, i, e, j, n - 1, c, c');
        assert (if n - 1 <= e - j then n - 1 else e - j) == e - j;
      }
    }
  }

  lemma {:induction false} LazyCut(rest: Pattern, s: string, t: string, i: nat, e: nat, j: nat, k: nat, n: nat, c: Caps, c': Caps)
    requires i <= j <= e <= |s| && t == s[i..e] && k <= n && j + n <= |s|
    requires k <= e - j
    ensures CutAgrees(Lazy(rest, s, j, k, n, c), Lazy(rest, t, j - i, k, if n <= e - j then n else e - j, c'), i, e)
    decreases |rest| + 1, n - k
  {
    MatchFromCut(rest, s, t, i, e, j + k, c, c');
    if k < n && k < e - j { LazyCut(rest, s, t, i, e, j, k + 1, n, c, c'); }
  }

  /** The match found at `i` in `s`, ending at `e`, is also the match found
      at the start of `s[i..e]`, and it covers all of that text. */
  lemma MatchAtCut(p: Pattern, s: string, i: nat, e: nat)
    requires i <= e <= |s|
    requires MatchAt(p, s, i).Some? && MatchAt(p, s, i).value.end == e
    ensures MatchAt(p, s[i..e], 0).Some? && MatchAt(p, s[i..e], 0).value.end == e - i
  {
    MatchFromCut(p, s, s[i..e], i, e, i, map[], map[]);
  }
}
