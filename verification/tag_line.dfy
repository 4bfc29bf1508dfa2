/** The TODO / DONE tags of a jft line and `switch_tag`, which toggles or
    replaces them.  A line may start with blanks, stars and blanks (the
    head), then a tag: a tag word and a colon, blanks, an optional date in
    parentheses and blanks.  The pattern always matches (every part is
    optional), so the head always exists and the tag may be absent. */
module TagLine {
  import opened Wrappers
  import Regex
  import ExportInline
  import opened LatexParsers

  /** The four tag words. */
  datatype Tag = Done | Check | Todo | Deadline

  /** The word of a tag: capital letters only, so the colon after it ends
      it. */
  function Word(t: Tag): (w: string)
    ensures |w| > 0 && forall i :: 0 <= i < |w| ==> 'A' <= w[i] <= 'Z'
  {
    match t
    case Done => "DONE"
    case Check => "CHECK"
    case Todo => "TODO"
    case Deadline => "DEADLINE"
  }

  /** No tag word begins another, so the word before a colon names one tag
      only. */
  lemma WordsPrefixFree(t: Tag, u: Tag)
    ensures Word(t) <= Word(u) ==> t == u
  {
    if t != u {
      var i := if (t == Done && u == Deadline) || (t == Deadline && u == Done) then 1 else 0;
      assert Word(t)[i] != Word(u)[i];
    }
  }

  /** What `switch_tag` writes for a tag: the word, a colon and a space,
      and for DONE the date between parentheses and a space. */
  function Stamp(t: Tag, today: string): string {
    if t == Done then Word(t) + (": " + ("(" + today + ") ")) else Word(t) + ": "
  }

  // ---------------------------------------------------------------------
  // The head `^\s*(\**)(\s*)`
  // ---------------------------------------------------------------------

  /** Where the head ends (`m.end(2)`): the leading blanks, the stars and
      the blanks after them.  Whatever follows is not blank. */
  function HeadEnd(line: string): (e: nat)
    ensures Lead(line) <= e <= |line| && (e < |line| ==> !Regex.IsSpace(line[e]))
  {
    var a := Lead(line);
    var n := RunOf(line, '*', a);
    a + n + Gap(line, a + n)
  }

  /** The head of a line followed by text that starts with neither a blank
      nor a star is the same head. */
  lemma HeadPrefix(line: string, t: string)
    requires |t| == 0 || (!Regex.IsSpace(t[0]) && t[0] != '*')
    ensures var e := HeadEnd(line);
            var s := line[..e] + t;
            HeadEnd(s) == e && s[..e] == line[..e] && s[e..] == t
  {
    var e := HeadEnd(line);
    var s := line[..e] + t;
    var a := Lead(line);
    var n := RunOf(line, '*', a);
    var g := Gap(line, a + n);
    assert s[..e] == line[..e] && s[e..] == t;
    assert forall j :: 0 <= j < e ==> s[j] == line[j];
    assert Lead(s) == a by {
      HeadLead(line, s, t);
    }
    assert RunOf(s, '*', a) == n by {
      HeadStars(line, s, t);
    }
    assert Gap(s, a + n) == g by {
      HeadParts(line);
      GapKeep(line, a + n, t);
    }
  }

  /** The pieces of a head. */
  lemma HeadParts(line: string)
    ensures var a := Lead(line);
            var n := RunOf(line, '*', a);
            (n > 0 ==> line[a] == '*') && (n == 0 ==> Gap(line, a + n) == 0)
  {
    var a := Lead(line);
    if RunOf(line, '*', a) == 0 && a < |line| {
      assert line[a..][0] == line[a];
    }
  }

  lemma HeadLead(line: string, s: string, t: string)
    requires |t| == 0 || (!Regex.IsSpace(t[0]) && t[0] != '*')
    requires s == line[..HeadEnd(line)] + t
    ensures Lead(s) == Lead(line)
  {
    var e := HeadEnd(line);
    var a := Lead(line);
    HeadParts(line);
    assert s[..a] == line[..a];
    if a < e { assert s[a] == line[a]; } else if |t| > 0 { assert s[a] == t[0]; }
    LeadAt(s, a);
  }

  lemma HeadStars(line: string, s: string, t: string)
    requires |t| == 0 || (!Regex.IsSpace(t[0]) && t[0] != '*')
    requires s == line[..HeadEnd(line)] + t && Lead(s) == Lead(line)
    ensures RunOf(s, '*', Lead(line)) == RunOf(line, '*', Lead(line))
  {
    var e := HeadEnd(line);
    var a := Lead(line);
    var n := RunOf(line, '*', a);
    HeadParts(line);
    assert forall j :: a <= j < a + n ==> s[j] == line[j];
    if a + n < e { assert s[a + n] == line[a + n]; } else if |t| > 0 { assert s[a + n] == t[0]; }
  }

  /** The blanks from `i` are the same once the text after them is
      replaced by text that does not start blank. */
  lemma GapKeep(line: string, i: nat, t: string)
    requires i <= |line| && (|t| == 0 || !Regex.IsSpace(t[0]))
    ensures var e := i + Gap(line, i);
            Gap(line[..e] + t, i) == Gap(line, i)
  {
    var e := i + Gap(line, i);
    var s := line[..e] + t;
    var w := line[i..e];
    assert s[i..] == w + t by {
      assert line[..e][i..] == w;
    }
    GapConcat(s, i, w, t);
  }

  // ---------------------------------------------------------------------
  // The tag `((DONE|CHECK|TODO|DEADLINE):\s*(\(DATE\))?\s* ?)`
  // ---------------------------------------------------------------------

  /** The tag word and colon `t` starts with, if any. */
  function TagWord(t: string): (r: Option<Tag>)
    ensures r.Some? ==> |t| > |Word(r.value)| && t[..|Word(r.value)|] == Word(r.value) && t[|Word(r.value)|] == ':'
  {
    if |t| > 4 && t[..4] == "DONE" && t[4] == ':' then Some(Done)
    else if |t| > 5 && t[..5] == "CHECK" && t[5] == ':' then Some(Check)
    else if |t| > 4 && t[..4] == "TODO" && t[4] == ':' then Some(Todo)
    else if |t| > 8 && t[..8] == "DEADLINE" && t[8] == ':' then Some(Deadline)
    else None
  }

  /** Text that starts with a tag word and a colon is read as that tag. */
  lemma TagWordOf(t: Tag, x: string)
    ensures TagWord(Word(t) + ":" + x) == Some(t)
  {
    var s := Word(t) + ":" + x;
    assert s[..|Word(t)|] == Word(t) && s[|Word(t)|] == ':';
  }

  predicate IsDigit(c: char) {
    '0' <= c <= '9'
  }

  predicate IsLower(c: char) {
    'a' <= c <= 'z'
  }

  /** The length of the run of digits starting at `i`. */
  function DigitRun(s: string, i: nat): (n: nat)
    requires i <= |s|
    ensures i + n <= |s| && (forall j :: i <= j < i + n ==> IsDigit(s[j])) && (i + n < |s| ==> !IsDigit(s[i + n]))
    decreases |s| - i
  {
    if i < |s| && IsDigit(s[i]) then 1 + DigitRun(s, i + 1) else 0
  }

  /** The month abbreviations the date pattern knows. */
  const Months: seq<string> :=
    ["Jan", "Feb", "Mar", "Apr", "May", "Jun", "Jul", "Aug", "Sep", "Oct", "Nov", "Dec"]

  /** After the day: blanks, a month abbreviation and lower-case letters
      (this also covers the pattern's third branch of full month names,
      each of which starts with its abbreviation). */
  predicate MonthTail(t: string) {
    var g := Lead(t);
    g + 3 <= |t| && t[g..g + 3] in Months && forall j :: g + 3 <= j < |t| ==> IsLower(t[j])
  }

  /** After the day: `-` and one or two digits, optionally followed by `-`
      and two or more digits. */
  predicate NumberTail(t: string) {
    |t| >= 2 && t[0] == '-' &&
    var n := DigitRun(t, 1);
    1 <= n <= 2 &&
    (1 + n == |t| ||
     (t[1 + n] == '-' && |t| >= 4 + n && forall j :: 2 + n <= j < |t| ==> IsDigit(t[j])))
  }

  /** The inside of a date: one or two digits, then a month or a number
      tail.  The day takes every leading digit: three digits leave a digit
      that no branch accepts. */
  predicate DateInner(x: string) {
    var n := DigitRun(x, 0);
    1 <= n <= 2 && (MonthTail(x[n..]) || NumberTail(x[n..]))
  }

  /** The month names `%B` writes in an English locale. */
  const FullMonths: seq<string> :=
    ["January", "February", "March", "April", "May", "June", "July", "August",
     "September", "October", "November", "December"]

  /** `strftime('%d %B')`: the zero-padded day, a blank and the month. */
  function Today(day: nat, month: nat): string
    requires 1 <= day <= 31 && month < 12
  {
    [(('0' as int) + day / 10) as char, (('0' as int) + day % 10) as char] + " " + FullMonths[month]
  }

  /** A whole date in parentheses. */
  predicate DateShape(u: string) {
    |u| >= 2 && u[0] == '(' && u[|u| - 1] == ')' && DateInner(u[1..|u| - 1])
  }

  /** The date DONE writes is one the pattern reads back: two digits, a
      blank and a full month name, which starts with its abbreviation. */
  lemma TodayReads(day: nat, month: nat)
    requires 1 <= day <= 31 && month < 12
    ensures DateShape("(" + Today(day, month) + ")") && ')' !in Today(day, month)
  {
    var x := Today(day, month);
    var t := " " + FullMonths[month];
    assert x == [x[0], x[1]] + t;
    FullMonthTail(month);
    DayThenMonth(x[0], x[1], t);
    Parenthesised(x);
  }

  /** A blank and a full month name are a month tail without a `)`. */
  lemma FullMonthTail(month: nat)
    requires month < 12
    ensures var t := " " + FullMonths[month];
            MonthTail(t) && |t| > 0 && t[0] == ' ' && ')' !in t
  {
    var m := FullMonths[month];
    var t := " " + m;
    FullMonthStarts(month);
    assert Lead(t) == 1 by {
      LeadConcat(" ", m);
    }
    assert t[1..4] == m[..3];
  }

  /** Each full month name is its abbreviation and lower-case letters. */
  lemma FullMonthStarts(month: nat)
    requires month < 12
    ensures var m := FullMonths[month];
            |m| >= 3 && m[..3] == Months[month] && forall j :: 3 <= j < |m| ==> IsLower(m[j])
  {
  }

  /** Two digits and a month tail are a date inside. */
  lemma DayThenMonth(a: char, b: char, t: string)
    requires IsDigit(a) && IsDigit(b) && |t| > 0 && t[0] == ' ' && MonthTail(t) && ')' !in t
    ensures DateInner([a, b] + t) && ')' !in [a, b] + t
  {
    var x := [a, b] + t;
    assert x[2] == t[0];
    assert DigitRun(x, 2) == 0;
    assert x[2..] == t;
  }

  /** A date inside, between parentheses, is a date. */
  lemma Parenthesised(x: string)
    requires DateInner(x)
    ensures DateShape("(" + x + ")")
  {
    var u := "(" + x + ")";
    assert u[1..|u| - 1] == x;
  }

  /** The length of the date at the start of `t`, if there is one.  No
      part of a date is a `)`, so a date ends at the first `)`. */
  function DateLen(t: string): (r: Option<nat>)
    ensures r.Some? ==> 2 <= r.value <= |t|
  {
    if |t| == 0 || t[0] != '(' then None
    else match ExportInline.NextOf(t, ')', 0)
      case None => None
      case Some(j) => if DateShape(t[..j + 1]) then Some(j + 1) else None
  }

  /** What `DateLen` finds is a date, with no `)` before its last
      character; nothing is found where no such prefix exists. */
  lemma DateLenShape(t: string)
    ensures DateLen(t).Some? ==>
              var n := DateLen(t).value;
              DateShape(t[..n]) && ')' !in t[..n - 1]
    ensures DateLen(t).None? ==>
              forall n :: 2 <= n <= |t| && ')' !in t[..n - 1] ==> !DateShape(t[..n])
  {
    if DateLen(t).Some? {
      var j := DateLen(t).value - 1;
      assert forall k :: 0 <= k < j ==> t[..j][k] == t[k];
    } else {
      forall n | 2 <= n <= |t| && ')' !in t[..n - 1]
        ensures !DateShape(t[..n])
      {
        assert t[..n][0] == t[0] && t[..n][n - 1] == t[n - 1];
        if t[0] == '(' && t[n - 1] == ')' {
          assert forall k :: 0 <= k < n - 1 ==> t[k] == t[..n - 1][k];
          assert ExportInline.NextOf(t, ')', 0) == Some(n - 1);
        }
      }
    }
  }

  /** A date followed by anything is read up to its closing parenthesis. */
  lemma DateLenOf(d: string, x: string)
    requires DateShape(d) && ')' !in d[..|d| - 1]
    ensures DateLen(d + x) == Some(|d|)
  {
    var t := d + x;
    assert t[..|d|] == d;
    assert forall k :: 0 <= k < |d| - 1 ==> t[k] == d[..|d| - 1][k];
    var j := ExportInline.NextOf(t, ')', 0);
    assert t[|d| - 1] == ')';
  }

  /** The span of group 3 at the start of `t`: the tag and its length. */
  function TagSpan(t: string): (r: Option<(Tag, nat)>)
    ensures r.Some? <==> TagWord(t).Some?
    ensures r.Some? ==> r.value.0 == TagWord(t).value && |Word(r.value.0)| + 1 <= r.value.1 <= |t|
  {
    match TagWord(t)
    case None => None
    case Some(w) => Some((w, TagEnd(t, |Word(w)| + 1)))
  }

  /** Where the tag that continues at `p` (after the colon) ends: blanks,
      an optional date, blanks.  The optional space at the end of the
      pattern never matches: the blanks before it took every space. */
  function TagEnd(t: string, p: nat): (e: nat)
    requires p <= |t|
    ensures p <= e <= |t|
  {
    var p1 := p + Gap(t, p);
    var p2 := DateEnd(t, p1);
    p2 + Gap(t, p2)
  }

  /** Where an optional date at `p` ends. */
  function DateEnd(t: string, p: nat): (e: nat)
    requires p <= |t|
    ensures p <= e <= |t|
  {
    match DateLen(t[p..])
    case None => p
    case Some(d) => p + d
  }

  /** A stamp followed by text that starts with neither a blank nor a
      date is exactly one tag span. */
  lemma StampSpan(t: Tag, today: string, rest: string)
    requires t == Done ==> DateShape("(" + today + ")") && ')' !in today
    requires |rest| == 0 || !Regex.IsSpace(rest[0])
    requires t != Done ==> DateLen(rest).None?
    ensures TagSpan(Stamp(t, today) + rest) == Some((t, |Stamp(t, today)|))
  {
    var s := Stamp(t, today) + rest;
    assert TagWord(s) == Some(t) by {
      StampWord(t, today, rest);
    }
    assert TagEnd(s, |Word(t)| + 1) == |Stamp(t, today)| by {
      StampEnd(t, today, rest);
    }
  }

  lemma StampEnd(t: Tag, today: string, rest: string)
    requires t == Done ==> DateShape("(" + today + ")") && ')' !in today
    requires |rest| == 0 || !Regex.IsSpace(rest[0])
    requires t != Done ==> DateLen(rest).None?
    ensures TagEnd(Stamp(t, today) + rest, |Word(t)| + 1) == |Stamp(t, today)|
  {
    StampEndDone(t, today, rest);
    StampEndOther(t, today, rest);
  }

  lemma StampEndDone(t: Tag, today: string, rest: string)
    requires t == Done ==> DateShape("(" + today + ")") && ')' !in today
    requires |rest| == 0 || !Regex.IsSpace(rest[0])
    ensures t == Done ==> TagEnd(Stamp(t, today) + rest, |Word(t)| + 1) == |Stamp(t, today)|
  {
    if t == Done {
      DoneStamp(today, rest);
    }
  }

  lemma DoneStamp(today: string, rest: string)
    requires DateShape("(" + today + ")") && ')' !in today
    requires |rest| == 0 || !Regex.IsSpace(rest[0])
    ensures TagEnd(Stamp(Done, today) + rest, 5) == |Stamp(Done, today)|
  {
    var d := "(" + today + ")";
    assert Stamp(Done, today) + rest == "DONE: " + (d + (" " + rest));
    assert d[..|d| - 1] == "(" + today;
    DoneEnd(d, rest);
  }

  /** The blank, the date and the blank after `DONE:` are one tag. */
  lemma DoneEnd(d: string, rest: string)
    requires DateShape(d) && ')' !in d[..|d| - 1]
    requires |rest| == 0 || !Regex.IsSpace(rest[0])
    ensures TagEnd("DONE: " + (d + (" " + rest)), 5) == 7 + |d|
  {
    var s := "DONE: " + (d + (" " + rest));
    DoneTail(d + (" " + rest));
    DateAt(s, 6, d, " " + rest);
    BlankAt(s, 6, d, rest);
    TagEndOf(s, 5, 6, 6 + |d|, 7 + |d|);
  }

  /** `TagEnd` from its three pieces. */
  lemma TagEndOf(s: string, p: nat, p1: nat, p2: nat, e: nat)
    requires p <= p1 <= |s| && p1 == p + Gap(s, p) && p2 == DateEnd(s, p1) && e == p2 + Gap(s, p2)
    ensures TagEnd(s, p) == e
  {
  }

  /** A date at `i` ends at its closing parenthesis. */
  lemma DateAt(s: string, i: nat, d: string, x: string)
    requires i <= |s| && s[i..] == d + x && DateShape(d) && ')' !in d[..|d| - 1]
    ensures i + |d| <= |s| && DateEnd(s, i) == i + |d|
  {
    DateLenOf(d, x);
  }

  /** The single blank after a date at `i`. */
  lemma BlankAt(s: string, i: nat, d: string, rest: string)
    requires i <= |s| && s[i..] == d + (" " + rest) && (|rest| == 0 || !Regex.IsSpace(rest[0]))
    ensures i + |d| <= |s| && Gap(s, i + |d|) == 1
  {
    SuffixSplit(s, i, d, " " + rest);
    GapConcat(s, i + |d|, " ", rest);
  }

  lemma DoneTail(u: string)
    requires |u| == 0 || !Regex.IsSpace(u[0])
    ensures var s := "DONE: " + u; Gap(s, 5) == 1 && s[6..] == u
  {
    var s := "DONE: " + u;
    assert s[5..] == " " + u;
    GapConcat(s, 5, " ", u);
  }

  lemma StampEndOther(t: Tag, today: string, rest: string)
    requires |rest| == 0 || !Regex.IsSpace(rest[0])
    requires t != Done ==> DateLen(rest).None?
    ensures t != Done ==> TagEnd(Stamp(t, today) + rest, |Word(t)| + 1) == |Stamp(t, today)|
  {
    if t != Done {
      OtherEnd(Word(t), rest);
    }
  }

  /** A tag word, a colon and one blank, followed by no date, are one tag. */
  lemma OtherEnd(w: string, rest: string)
    requires |rest| == 0 || !Regex.IsSpace(rest[0])
    requires DateLen(rest).None?
    ensures var s := w + ": " + rest;
            TagEnd(s, |w| + 1) == |w| + 2
  {
    var s := w + ": " + rest;
    var p := |w| + 1;
    assert s == w + ":" + (" " + rest);
    assert Gap(s, p) == 1 && s[p + 1..] == rest by {
      GapConcat(s, p, " ", rest);
    }
    assert Gap(s, p + 1) == 0 by {
      GapConcat(s, p + 1, "", rest);
    }
  }

  /** The tag the pattern finds after the head of a line, if any. */
  function TagOf(line: string): (r: Option<Tag>) {
    match TagSpan(line[HeadEnd(line)..])
    case None => None
    case Some(p) => Some(p.0)
  }

  /** The length of that tag (`m.end(3) - m.end(2)`), zero without one. */
  function TagLen(line: string): (n: nat)
    ensures HeadEnd(line) + n <= |line|
    ensures TagOf(line).None? ==> n == 0
  {
    match TagSpan(line[HeadEnd(line)..])
    case None => 0
    case Some(p) => p.1
  }

  // ---------------------------------------------------------------------
  // `switch_tag`
  // ---------------------------------------------------------------------

  /** `switch_tag(tag)` on the cursor line, with `today` the date it writes
      for DONE: the tag found after the head is removed and, unless it was
      `tag` itself, `Stamp(tag)` is written where the head ends.  The head
      and the text after the old tag are kept. */
  function SwitchTag(line: string, tag: Tag, today: string): string {
    Retag(line, HeadEnd(line), TagLen(line), TagOf(line) == Some(tag), Stamp(tag, today))
  }

  /** The edit of `switch_tag` once the match is known: the `n` characters
      of the old tag at `e` are cut, and unless the tag was the same, the
      stamp is written in their place. */
  function Retag(line: string, e: nat, n: nat, same: bool, stamp: string): string
    requires e + n <= |line|
  {
    if same then line[..e] + line[e + n..] else line[..e] + (stamp + line[e + n..])
  }

  /** `SwitchTag` with its pieces named, when it writes a stamp. */
  lemma SwitchAt(line: string, tag: Tag, today: string, e: nat, n: nat)
    requires e == HeadEnd(line) && n == TagLen(line) && TagOf(line) != Some(tag)
    ensures SwitchTag(line, tag, today) == line[..e] + (Stamp(tag, today) + line[e + n..])
  {
    assert SwitchTag(line, tag, today) == Retag(line, e, n, false, Stamp(tag, today));
    RetagParts(line, e, n, false, Stamp(tag, today));
  }

  /** `SwitchTag` with its pieces named, when it clears the tag. */
  lemma ClearAt(line: string, tag: Tag, today: string, e: nat, n: nat)
    requires e == HeadEnd(line) && n == TagLen(line) && TagOf(line) == Some(tag)
    ensures SwitchTag(line, tag, today) == line[..e] + line[e + n..]
  {
    assert SwitchTag(line, tag, today) == Retag(line, e, n, true, Stamp(tag, today));
    RetagParts(line, e, n, true, Stamp(tag, today));
  }

  /** `Retag` unfolded. */
  lemma RetagParts(line: string, e: nat, n: nat, same: bool, stamp: string)
    requires e + n <= |line|
    ensures same ==> Retag(line, e, n, same, stamp) == line[..e] + line[e + n..]
    ensures !same ==> Retag(line, e, n, same, stamp) == line[..e] + (stamp + line[e + n..])
  {
  }

  /** After switching to a tag that was not already there, the line
      carries that tag. */
  lemma SwitchSets(line: string, tag: Tag, today: string)
    requires TagOf(line) != Some(tag)
    ensures TagOf(SwitchTag(line, tag, today)) == Some(tag)
  {
    var e := HeadEnd(line);
    var n := TagLen(line);
    SwitchAt(line, tag, today, e, n);
    StampAfterHead(line, tag, today, line[e + n..]);
  }

  /** A stamp written where the head ends is the tag of the line. */
  lemma StampAfterHead(line: string, tag: Tag, today: string, x: string)
    ensures TagOf(line[..HeadEnd(line)] + (Stamp(tag, today) + x)) == Some(tag)
  {
    StampWord(tag, today, x);
    StampedTag(line, Stamp(tag, today) + x);
  }

  /** A stamp is read as its tag word. */
  lemma StampWord(tag: Tag, today: string, x: string)
    ensures TagWord(Stamp(tag, today) + x) == Some(tag)
  {
    var t := Stamp(tag, today) + x;
    var p := |Word(tag)| + 1;
    assert t == Word(tag) + ":" + t[p..];
    TagWordOf(tag, t[p..]);
  }

  /** The tag after the head when the head is followed by tagged text. */
  lemma StampedTag(line: string, t: string)
    requires TagWord(t).Some?
    ensures TagOf(line[..HeadEnd(line)] + t) == TagWord(t)
  {
    var w := Word(TagWord(t).value);
    assert 'A' <= t[0] <= 'Z' by { assert t[..|w|] == w; }
    HeadPrefix(line, t);
  }

  /** Switching to the tag a line already has removes it: the head and the
      text after the tag are joined. */
  lemma SwitchClears(line: string, tag: Tag, today: string)
    requires TagOf(line) == Some(tag)
    ensures var e := HeadEnd(line);
            SwitchTag(line, tag, today) == line[..e] + line[e + TagLen(line)..] &&
            |SwitchTag(line, tag, today)| == |line| - TagLen(line)
  {
    ClearAt(line, tag, today, HeadEnd(line), TagLen(line));
  }

  /** Switching to a different tag replaces the old one by the new stamp. */
  lemma SwitchReplaces(line: string, tag: Tag, today: string)
    requires TagOf(line).Some? && TagOf(line) != Some(tag)
    ensures var e := HeadEnd(line);
            SwitchTag(line, tag, today) == line[..e] + (Stamp(tag, today) + line[e + TagLen(line)..])
  {
    SwitchAt(line, tag, today, HeadEnd(line), TagLen(line));
  }

  /** Switching a tag on a line without one, then switching the same tag
      again, gives the line back.  For a tag other than DONE the text
      after the head must not itself start with a date, which the second
      switch would remove with the tag; for DONE the date written must be
      one the pattern reads. */
  lemma SwitchToggles(line: string, tag: Tag, today: string)
    requires TagOf(line).None?
    requires tag == Done ==> DateShape("(" + today + ")") && ')' !in today
    requires tag != Done ==> DateLen(line[HeadEnd(line)..]).None?
    ensures SwitchTag(SwitchTag(line, tag, today), tag, today) == line
  {
    var e := HeadEnd(line);
    var st := Stamp(tag, today);
    var once := line[..e] + (st + line[e..]);
    assert SwitchTag(line, tag, today) == once by {
      SwitchAt(line, tag, today, e, 0);
    }
    StampOnce(line, tag, today);
    ClearBack(once, line, e, st, tag, today);
  }

  /** The second switch of `SwitchToggles`: clearing the stamp read back
      after the head leaves the original line. */
  lemma ClearBack(once: string, line: string, e: nat, st: string, tag: Tag, today: string)
    requires e <= |line| && once == line[..e] + (st + line[e..])
    requires HeadEnd(once) == e && TagOf(once) == Some(tag) && TagLen(once) == |st|
    ensures SwitchTag(once, tag, today) == line
  {
    ClearAt(once, tag, today, e, |st|);
    JoinBack(line, e, st);
  }

  /** Cutting out what was put after a prefix gives the text back. */
  lemma JoinBack(line: string, e: nat, st: string)
    requires e <= |line|
    ensures var once := line[..e] + (st + line[e..]);
            once[..e] + once[e + |st|..] == line
  {
    var once := line[..e] + (st + line[e..]);
    assert once[..e] == line[..e];
    assert once[e + |st|..] == line[e..];
  }

  /** The first switch of `SwitchToggles`: the stamp sits right after the
      head and is read back as one tag. */
  lemma StampOnce(line: string, tag: Tag, today: string)
    requires tag == Done ==> DateShape("(" + today + ")") && ')' !in today
    requires tag != Done ==> DateLen(line[HeadEnd(line)..]).None?
    ensures var e := HeadEnd(line);
            var st := Stamp(tag, today);
            var once := line[..e] + (st + line[e..]);
            HeadEnd(once) == e && TagOf(once) == Some(tag) && TagLen(once) == |st|
  {
    var e := HeadEnd(line);
    var rest := line[e..];
    var st := Stamp(tag, today);
    var once := line[..e] + (st + rest);
    assert HeadEnd(once) == e && once[e..] == st + rest by {
      assert (st + rest)[0] == Word(tag)[0];
      HeadPrefix(line, st + rest);
    }
    assert TagSpan(st + rest) == Some((tag, |st|)) by {
      StampSpan(tag, today, rest);
    }
  }
}
