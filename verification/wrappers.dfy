/** Option type shared by every module of the model. */
module Wrappers {

  /** A value that may be absent (Python's `None`). */
  datatype Option<+T> = None | Some(value: T) {

    /** The wrapped value, or `default` when absent. */
    function GetOr(default: T): T {
      match this
      case Some(v) => v
      case None => default
    }
  }
}

/** Small facts about sequences used by the engine: duplicate freedom,
    removal of the first matching element, and counting. */
module Seqs {

  /** The union of a sequence of sets. */
  function Union<T(!new)>(ss: seq<set<T>>): (r: set<T>)
    ensures forall p :: p in r <==> exists k :: 0 <= k < |ss| && p in ss[k]
  {
    if |ss| == 0 then {}
    else
      var rest := Union(ss[1..]);
      assert forall p :: p in rest <==> exists k :: 1 <= k < |ss| && p in ss[k] by {
        forall p | p in rest ensures exists k :: 1 <= k < |ss| && p in ss[k] {
          var k :| 0 <= k < |ss[1..]| && p in ss[1..][k];
          assert ss[1..][k] == ss[k + 1];
        }
        forall p | (exists k :: 1 <= k < |ss| && p in ss[k]) ensures p in rest {
          var k :| 1 <= k < |ss| && p in ss[k];
          assert ss[1..][k - 1] == ss[k];
        }
      }
      ss[0] + rest
  }

  /** A sequence of two elements is the display of them. */
  lemma PairOf<T>(r: seq<T>, a: T, b: T)
    requires |r| == 2 && r[0] == a && r[1] == b
    ensures r == [a, b]
  {
  }

  /** No element occurs twice. */
  predicate NoDup<T(==)>(s: seq<T>) {
    forall i, j :: 0 <= i < j < |s| ==> s[i] != s[j]
  }

  /** The two halves of a concatenation are its slices at the seam. */
  lemma SplitBack<T>(s: seq<T>, a: seq<T>, b: seq<T>)
    requires s == a + b
    ensures s[..|a|] == a && s[|a|..] == b
  {
  }

  /** Inserting a new element anywhere keeps the elements distinct. */
  lemma NoDupInsert<T>(s: seq<T>, k: nat, x: T)
    requires k <= |s| && NoDup(s) && x !in s
    ensures NoDup(s[..k] + [x] + s[k..])
  {
    var r := s[..k] + [x] + s[k..];
    forall i, j | 0 <= i < j < |r| ensures r[i] != r[j] {
      var si := if i < k then i else i - 1;
      var sj := if j < k then j else j - 1;
      if i != k && j != k {
        assert r[i] == s[si] && r[j] == s[sj];
      } else if i == k {
        assert r[j] == s[sj];
      } else {
        assert r[i] == s[si];
      }
    }
  }

  /** Python's `list.remove(x)`: delete the first occurrence of `x`
      (the model never calls it when `x` is absent; then it is the identity). */
  function RemoveFirst<T(==)>(s: seq<T>, x: T): (r: seq<T>)
    ensures x !in s ==> r == s
    ensures x in s ==> |r| == |s| - 1
    ensures multiset(r) == multiset(s) - multiset{x}
    ensures forall y :: y in r ==> y in s
  {
    if |s| == 0 then []
    else
      assert s == [s[0]] + s[1..];
      if s[0] == x then s[1..]
      else [s[0]] + RemoveFirst(s[1..], x)
  }

  /** Removing an element from a duplicate-free sequence removes every copy of it. */
  lemma RemoveFirstNoDup<T>(s: seq<T>, x: T)
    requires NoDup(s)
    ensures NoDup(RemoveFirst(s, x))
    ensures x !in RemoveFirst(s, x)
  {
    if |s| > 0 && s[0] != x {
      RemoveFirstNoDup(s[1..], x);
      assert s[0] !in s[1..];
      assert s[0] !in multiset(RemoveFirst(s[1..], x));
    }
  }

  /** A duplicate-free sequence holds each element at most once. */
  lemma {:induction false} NoDupCount<T>(s: seq<T>, x: T)
    requires NoDup(s)
    ensures multiset(s)[x] <= 1
  {
    if |s| > 0 {
      assert s == [s[0]] + s[1..];
      assert s[0] !in s[1..];
      NoDupCount(s[1..], x);
    }
  }

  /** Two positions holding the same element count it twice. */
  lemma DupCount<T>(s: seq<T>, i: nat, j: nat)
    requires i < j < |s| && s[i] == s[j]
    ensures multiset(s)[s[i]] >= 2
  {
    assert s == s[..j] + s[j..];
    assert s[i] == s[..j][i];
    assert s[j] == s[j..][0];
  }

  /** A rearrangement of a duplicate-free sequence is duplicate free. */
  lemma PermNoDup<T>(a: seq<T>, b: seq<T>)
    requires NoDup(a) && multiset(a) == multiset(b)
    ensures NoDup(b)
  {
    forall i, j | 0 <= i < j < |b| ensures b[i] != b[j] {
      if b[i] == b[j] {
        DupCount(b, i, j);
        NoDupCount(a, b[i]);
      }
    }
  }

  /** `s` repeated `n` times; Python's `s * n`, which is empty for `n <= 0`. */
  function Repeat<T>(s: seq<T>, n: int): (r: seq<T>)
    ensures n <= 0 ==> r == []
    ensures n > 0 ==> |r| == |s| * n
    decreases n
  {
    if n <= 0 then [] else s + Repeat(s, n - 1)
  }

  /** `s` then one more `s` is `s` repeated once more. */
  lemma {:induction false} RepeatSnoc<T>(s: seq<T>, n: nat)
    ensures Repeat(s, n) + s == Repeat(s, n + 1)
    decreases n
  {
    if n > 0 { RepeatSnoc(s, n - 1); }
  }

  /** Number of occurrences of `c` (Python's `str.count` for one character). */
  function Occurrences<T(==)>(s: seq<T>, c: T): nat {
    if |s| == 0 then 0 else (if s[0] == c then 1 else 0) + Occurrences(s[1..], c)
  }

  /** `s` with every `c` removed (Python's `str.replace(c, '')`). */
  function Without<T(==)>(s: seq<T>, c: T): seq<T> {
    if |s| == 0 then [] else (if s[0] == c then [] else [s[0]]) + Without(s[1..], c)
  }

  lemma {:induction false} OccurrencesAppend<T>(a: seq<T>, b: seq<T>, c: T)
    ensures Occurrences(a + b, c) == Occurrences(a, c) + Occurrences(b, c)
  {
    if |a| > 0 {
      OccurrencesAppend(a[1..], b, c);
      assert (a + b)[1..] == a[1..] + b;
    } else {
      assert a + b == b;
    }
  }

  lemma {:induction false} OccurrencesNone<T>(s: seq<T>, c: T)
    requires c !in s
    ensures Occurrences(s, c) == 0
  {
    if |s| > 0 { OccurrencesNone(s[1..], c); }
  }

  lemma {:induction false} WithoutAppend<T>(a: seq<T>, b: seq<T>, c: T)
    ensures Without(a + b, c) == Without(a, c) + Without(b, c)
  {
    if |a| > 0 {
      WithoutAppend(a[1..], b, c);
      assert (a + b)[1..] == a[1..] + b;
    } else {
      assert a + b == b;
    }
  }

  lemma WithoutCons<T>(x: T, s: seq<T>, c: T)
    ensures Without([x] + s, c) == (if x == c then [] else [x]) + Without(s, c)
  {
    assert ([x] + s)[1..] == s;
  }

  lemma {:induction false} WithoutNone<T>(s: seq<T>, c: T)
    requires c !in s
    ensures Without(s, c) == s
  {
    if |s| > 0 { WithoutNone(s[1..], c); assert s == [s[0]] + s[1..]; }
  }

  /** Removing every `c` and counting the `c`s accounts for every element. */
  lemma {:induction false} WithoutCount<T>(s: seq<T>, c: T)
    ensures |Without(s, c)| + Occurrences(s, c) == |s|
  {
    if |s| > 0 { WithoutCount(s[1..], c); }
  }

  /** A repetition holds only elements of the repeated sequence. */
  lemma {:induction false} RepeatIn<T>(s: seq<T>, n: int, x: T)
    ensures x in Repeat(s, n) ==> x in s
    decreases n
  {
    if n > 0 { RepeatIn(s, n - 1, x); }
  }
}
