/** Sorting as Python's `sorted` / `list.sort` does it, for the element types
    the modelled code sorts: strings, pairs of strings, and sets of strings. */
module Sorting {
  import opened StrUtil
  import opened SeqUtil

  /** `le` is a total preorder: the precondition Python's sort relies on. */
  ghost predicate TotalPreorder<T(!new)>(le: (T, T) -> bool)
  {
    (forall a, b :: le(a, b) || le(b, a)) &&
    (forall a, b, c :: le(a, b) && le(b, c) ==> le(a, c))
  }

  predicate SortedBy<T>(s: seq<T>, le: (T, T) -> bool)
  {
    forall i, j :: 0 <= i < j < |s| ==> le(s[i], s[j])
  }

  predicate Sorted(s: seq<string>)
  {
    SortedBy(s, LessEq)
  }

  function InsertBy<T(!new)>(x: T, s: seq<T>, le: (T, T) -> bool): (r: seq<T>)
    requires TotalPreorder(le) && SortedBy(s, le)
    ensures SortedBy(r, le)
    ensures multiset(r) == multiset(s) + multiset{x}
  {
    if s == [] then [x]
    else if le(x, s[0]) then
      [x] + s
    else
      var rest := InsertBy(x, s[1..], le);
      ConsSortedBy(s, x, rest, le);
      [s[0]] + rest
  }

  /** The head of a sorted list goes before the rest with an element inserted. */
  lemma ConsSortedBy<T(!new)>(s: seq<T>, x: T, rest: seq<T>, le: (T, T) -> bool)
    requires TotalPreorder(le) && SortedBy(s, le) && s != [] && !le(x, s[0])
    requires SortedBy(rest, le) && multiset(rest) == multiset(s[1..]) + multiset{x}
    ensures SortedBy([s[0]] + rest, le)
    ensures multiset([s[0]] + rest) == multiset(s) + multiset{x}
  {
    forall j | 0 <= j < |rest| ensures le(s[0], rest[j]) {
      assert rest[j] in multiset(rest);
      if rest[j] != x {
        assert rest[j] in multiset(s[1..]);
        var k :| 0 <= k < |s[1..]| && s[1..][k] == rest[j];
        assert s[k + 1] == rest[j];
      }
    }
    assert s == [s[0]] + s[1..];
  }

  /** Sorting a list: an ordered permutation of it. */
  function SortBy<T(!new)>(xs: seq<T>, le: (T, T) -> bool): (r: seq<T>)
    requires TotalPreorder(le)
    ensures SortedBy(r, le)
    ensures multiset(r) == multiset(xs)
  {
    if xs == [] then []
    else
      assert xs == [xs[0]] + xs[1..];
      InsertBy(xs[0], SortBy(xs[1..], le), le)
  }

  lemma LessEqIsTotalPreorder()
    ensures TotalPreorder(LessEq)
  {
    forall a, b ensures LessEq(a, b) || LessEq(b, a) {
      LessEqTotal(a, b);
    }
    forall a, b, c | LessEq(a, b) && LessEq(b, c) ensures LessEq(a, c) {
      LessEqTransitive(a, b, c);
    }
  }

  /** `sorted(xs)` for a list of strings. */
  function Sort(xs: seq<string>): (r: seq<string>)
    ensures Sorted(r)
    ensures multiset(r) == multiset(xs)
  {
    LessEqIsTotalPreorder();
    SortBy(xs, LessEq)
  }

  /** Python's ordering of 2-tuples of strings: by the first component, then the second. */
  predicate PairLessEq(p: (string, string), q: (string, string))
  {
    (LessEq(p.0, q.0) && p.0 != q.0) || (p.0 == q.0 && LessEq(p.1, q.1))
  }

  lemma PairLessEqIsTotalPreorder()
    ensures TotalPreorder(PairLessEq)
  {
    forall p: (string, string), q: (string, string) ensures PairLessEq(p, q) || PairLessEq(q, p) {
      LessEqTotal(p.0, q.0);
      LessEqTotal(p.1, q.1);
    }
    forall p: (string, string), q: (string, string), t: (string, string) | PairLessEq(p, q) && PairLessEq(q, t)
      ensures PairLessEq(p, t)
    {
      LessEqReflexive(q.0);
      LessEqTransitive(p.0, q.0, t.0);
      if p.0 == q.0 && q.0 == t.0 {
        LessEqTransitive(p.1, q.1, t.1);
      } else if p.0 == t.0 {
        LessEqAntisymmetric(p.0, q.0);
      }
    }
  }

  /** `sorted(xs)` for a list of string pairs. */
  function SortPairs(xs: seq<(string, string)>): (r: seq<(string, string)>)
    ensures SortedBy(r, PairLessEq)
    ensures multiset(r) == multiset(xs)
  {
    PairLessEqIsTotalPreorder();
    SortBy(xs, PairLessEq)
  }

  /** `m` is the least element of `s`. */
  predicate IsMin(m: string, s: set<string>)
  {
    m in s && forall y :: y in s ==> LessEq(m, y)
  }

  lemma {:induction false} MinExists(s: set<string>)
    requires s != {}
    ensures exists m :: IsMin(m, s)
    decreases |s|
  {
    var x :| x in s;
    if s == {x} {
      LessEqReflexive(x);
      assert IsMin(x, s);
    } else {
      MinExists(s - {x});
      var m :| IsMin(m, s - {x});
      LessEqTotal(m, x);
      if LessEq(m, x) {
        assert IsMin(m, s);
      } else {
        forall y | y in s ensures LessEq(x, y) {
          if y != x { LessEqTransitive(x, m, y); } else { LessEqReflexive(x); }
        }
        assert IsMin(x, s);
      }
    }
  }

  lemma SmallestUnique(s: set<string>)
    ensures forall a, b :: IsMin(a, s) && IsMin(b, s) ==> a == b
  {
    forall a, b | IsMin(a, s) && IsMin(b, s) ensures a == b {
      LessEqAntisymmetric(a, b);
    }
  }

  /** `sorted(s)` for a set (or the keys of a dict) of strings: its elements in
      increasing order, each exactly once. */
  function SortedSet(s: set<string>): (r: seq<string>)
    ensures Sorted(r) && Distinct(r)
    ensures |r| == |s|
    ensures forall x :: x in r <==> x in s
    decreases |s|
  {
    if s == {} then []
    else
      MinExists(s);
      SmallestUnique(s);
      var m :| IsMin(m, s);
      var rest := SortedSet(s - {m});
      ConsSorted(m, s, rest);
      [m] + rest
  }

  /** The least element followed by the sorted rest is sorted. */
  lemma ConsSorted(m: string, s: set<string>, rest: seq<string>)
    requires IsMin(m, s) && Sorted(rest) && Distinct(rest)
    requires forall x :: x in rest ==> x in s - {m}
    ensures Sorted([m] + rest) && Distinct([m] + rest)
  {
    var r := [m] + rest;
    forall i, j | 0 <= i < j < |r| ensures LessEq(r[i], r[j]) && r[i] != r[j] {
      assert r[j] == rest[j - 1] && r[j] in s - {m};
      if i > 0 {
        assert r[i] == rest[i - 1];
      }
    }
  }
}
