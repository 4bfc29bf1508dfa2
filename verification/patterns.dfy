/** The patterns compiled by the validators (plugin/jft/Validators.py),
    written as `Regex` node lists, and a direct description of what the
    inline-math pattern matches. */
module Patterns {
  import opened Wrappers
  import opened Regex

  /** `\{\{\s*([^#]*)\s*:\s*([^:]*[^\s][^:]*?)\s*\}\}`: a `{{key: value}}`
      meta tag (ValidatorMeta). */
  const Meta: Pattern := [
    Lit('{'), Lit('{'), Star(Space, true),
    Open(1), Star(NoneOf("#"), true), Close(1),
    Star(Space, true), Lit(':'), Star(Space, true),
    Open(2), Star(NoneOf(":"), true), One(NotSpace), Star(NoneOf(":"), false), Close(2),
    Star(Space, true), Lit('}'), Lit('}')]

  /** `'{3}([^']+)'{3}` (ValidatorEmphasize). */
  const Emphasize: Pattern := [
    Lit('\''), Lit('\''), Lit('\''),
    Open(1), One(NoneOf("'")), Star(NoneOf("'"), true), Close(1),
    Lit('\''), Lit('\''), Lit('\'')]

  /** `_{2}([^_]+)_{2}` (ValidatorStrong). */
  const Strong: Pattern := [
    Lit('_'), Lit('_'),
    Open(1), One(NoneOf("_")), Star(NoneOf("_"), true), Close(1),
    Lit('_'), Lit('_')]

  /** `\$(.*?)\$`: inline math (ValidatorLatex). */
  const Math: Pattern := [Lit('$'), Open(1), Star(Dot, false), Close(1), Lit('$')]

  /** The first `$` at or after offset `j`, unless a newline or the end of
      the string comes first. */
  function NextDollar(s: string, j: nat): (r: Option<nat>)
    requires j <= |s|
    ensures r.Some? ==> j <= r.value < |s| && s[r.value] == '$'
    ensures r.Some? ==> forall q :: j <= q < r.value ==> s[q] != '$' && s[q] != '\n'
    decreases |s| - j
  {
    if j == |s| || s[j] == '\n' then None
    else if s[j] == '$' then Some(j)
    else NextDollar(s, j + 1)
  }

  /** The lazy `.*?` of the math pattern stops at the first `$`. */
  lemma {:induction false} MathLazy(s: string, i: nat, k: nat, n: nat)
    requires k <= n && i + n <= |s|
    requires n == Run(Dot, s, i)
    ensures var r := Lazy([Close(1), Lit('$')], s, i, k, n, map[1 := Span(i, i)]);
            match NextDollar(s, i + k)
            case None => r.None?
            case Some(j) => r == Some((j + 1, map[1 := Span(i, j)]))
    decreases n - k
  {
    var rest := [Close(1), Lit('$')];
    var caps := map[1 := Span(i, i)];
    assert rest[1..] == [Lit('$')];
    assert MatchFrom(rest, s, i + k, caps) ==
      MatchFrom([Lit('$')], s, i + k, caps[1 := Span(i, i + k)]);
    assert caps[1 := Span(i, i + k)] == map[1 := Span(i, i + k)];
    if i + k < |s| && s[i + k] == '$' {
      assert [Lit('$')][1..] == [];
      assert MatchFrom([Lit('$')], s, i + k, caps[1 := Span(i, i + k)]) == Some((i + k + 1, map[1 := Span(i, i + k)]));
    } else {
      assert MatchFrom([Lit('$')], s, i + k, caps[1 := Span(i, i + k)]).None?;
      if k < n {
        assert InClass(s[i + k], Dot);
        MathLazy(s, i, k + 1, n);
      } else {
        assert i + k == |s| || s[i + k] == '\n';
      }
    }
  }

  /** What the inline-math pattern matches at offset `i`: a `$`, then
      everything up to the next `$` on the same line, which closes it; group 1
      is the text between the dollars. */
  lemma MathMatchAt(s: string, i: nat)
    requires i <= |s|
    ensures MatchAt(Math, s, i).Some? <==> i < |s| && s[i] == '$' && NextDollar(s, i + 1).Some?
    ensures MatchAt(Math, s, i).Some? ==>
              var j := NextDollar(s, i + 1).value;
              MatchAt(Math, s, i) == Some(Match(i, j + 1, map[1 := Span(i + 1, j)]))
  {
    if i < |s| && s[i] == '$' {
      var n := Run(Dot, s, i + 1);
      assert Math[1..] == [Open(1), Star(Dot, false), Close(1), Lit('$')];
      assert Math[1..][1..] == [Star(Dot, false), Close(1), Lit('$')];
      assert Math[1..][1..][1..] == [Close(1), Lit('$')];
      assert MatchFrom(Math, s, i, map[]) == MatchFrom(Math[1..][1..], s, i + 1, map[1 := Span(i + 1, i + 1)]);
      MathLazy(s, i + 1, 0, n);
    }
  }

  /** `match_exact` for inline math: the text is `$`, a body with neither a
      `$` nor a newline, and a closing `$`. */
  lemma MathExact(t: string)
    ensures (MatchAt(Math, t, 0).Some? && MatchAt(Math, t, 0).value.end == |t|) <==>
            (|t| >= 2 && t[0] == '$' && t[|t| - 1] == '$' &&
             forall q :: 1 <= q < |t| - 1 ==> t[q] != '$' && t[q] != '\n')
  {
    MathMatchAt(t, 0);
    if |t| >= 2 && t[0] == '$' && t[|t| - 1] == '$' &&
       forall q :: 1 <= q < |t| - 1 ==> t[q] != '$' && t[q] != '\n' {
      NextDollarFinds(t, 1, |t| - 1);
    }
  }

  /** `NextDollar` finds a `$` that has no `$` or newline before it. */
  lemma {:induction false} NextDollarFinds(s: string, j: nat, d: nat)
    requires j <= d < |s| && s[d] == '$'
    requires forall q :: j <= q < d ==> s[q] != '$' && s[q] != '\n'
    ensures NextDollar(s, j) == Some(d)
    decreases d - j
  {
    if j < d { NextDollarFinds(s, j + 1, d); }
  }
}
