/**
 * The one query operator the filter helpers use: LINQ's `Where`, modelled on an
 * in-memory sequence (the order of the source sequence is kept).
 */
module Queries {

  /** `a` can be obtained from `b` by deleting elements (order kept). */
  predicate IsSubsequence<T(==)>(a: seq<T>, b: seq<T>)
    decreases |b|
  {
    if a == [] then true
    else if b == [] then false
    else if a[0] == b[0] then IsSubsequence(a[1..], b[1..])
    else IsSubsequence(a, b[1..])
  }

  /** `query.Where(p)`: the elements of `s` satisfying `p`, in their original order. */
  function Where<T>(s: seq<T>, p: T -> bool): (r: seq<T>)
    ensures |r| <= |s|
    ensures forall i | 0 <= i < |r| :: p(r[i])
    ensures forall i | 0 <= i < |s| :: p(s[i]) ==> s[i] in r
  {
    if s == [] then []
    else if p(s[0]) then [s[0]] + Where(s[1..], p)
    else Where(s[1..], p)
  }

  lemma {:induction false} SubsequenceRefl<T>(s: seq<T>)
    ensures IsSubsequence(s, s)
  {
    if s != [] {
      SubsequenceRefl(s[1..]);
    }
  }

  /** A `Where` keeps a subsequence of its input. */
  lemma {:induction false} WhereIsSubsequence<T>(s: seq<T>, p: T -> bool)
    ensures IsSubsequence(Where(s, p), s)
  {
    if s != [] {
      WhereIsSubsequence(s[1..], p);
    }
  }

  /** Two successive `Where`s are one `Where` with the conjunction. */
  lemma {:induction false} WhereWhere<T>(s: seq<T>, p: T -> bool, q: T -> bool, pq: T -> bool)
    requires forall x :: pq(x) == (p(x) && q(x))
    ensures Where(Where(s, p), q) == Where(s, pq)
  {
    if s != [] {
      WhereWhere(s[1..], p, q, pq);
    }
  }

  /** `Where` depends only on the values its predicate takes. */
  lemma {:induction false} WhereExt<T>(s: seq<T>, p: T -> bool, q: T -> bool)
    requires forall x :: p(x) == q(x)
    ensures Where(s, p) == Where(s, q)
  {
    if s != [] {
      WhereExt(s[1..], p, q);
    }
  }

  /** A `Where` whose predicate every element meets returns its input. */
  lemma {:induction false} WhereAll<T>(s: seq<T>, p: T -> bool)
    requires forall i | 0 <= i < |s| :: p(s[i])
    ensures Where(s, p) == s
  {
    if s != [] {
      WhereAll(s[1..], p);
    }
  }

  /** Two successive `Where`s keep exactly the elements meeting both predicates. */
  lemma WhereTwice<T>(s: seq<T>, p: T -> bool, q: T -> bool)
    ensures var r := Where(Where(s, p), q);
            forall i | 0 <= i < |r| :: p(r[i]) && q(r[i])
    ensures forall i | 0 <= i < |s| :: p(s[i]) && q(s[i]) ==> s[i] in Where(Where(s, p), q)
  {
    WhereWhere(s, p, q, x => p(x) && q(x));
  }

  /** `Where(p)` and `Where(not p)` split the input: each value occurs in the two together as often as in the input. */
  lemma {:induction false} WherePartition<T>(s: seq<T>, p: T -> bool, notP: T -> bool, x: T)
    requires forall y :: notP(y) == !p(y)
    ensures multiset(Where(s, p))[x] + multiset(Where(s, notP))[x] == multiset(s)[x]
  {
    if s != [] {
      WherePartition(s[1..], p, notP, x);
      assert s == [s[0]] + s[1..];
      if p(s[0]) {
        assert Where(s, p) == [s[0]] + Where(s[1..], p);
      } else {
        assert Where(s, notP) == [s[0]] + Where(s[1..], notP);
      }
    }
  }
}
