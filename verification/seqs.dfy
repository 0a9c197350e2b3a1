/** List comprehensions with a condition, `[x for x in s if p(x)]`, and the
    order-preserving subsequence relation they produce. */
module Seqs {

  /** `a` can be obtained from `b` by deleting elements, keeping order. */
  predicate IsSubseq<T(==)>(a: seq<T>, b: seq<T>)
    decreases |b|
  {
    if a == [] then true
    else if b == [] then false
    else if a[0] == b[0] then IsSubseq(a[1..], b[1..])
    else IsSubseq(a, b[1..])
  }

  /** `[x for x in s if p(x)]`: an order-preserving subsequence holding
      exactly the elements that satisfy `p`, each as often as in `s`. */
  function Filter<T(==,!new)>(s: seq<T>, p: T -> bool): (r: seq<T>)
    ensures forall i :: 0 <= i < |r| ==> p(r[i])
    ensures forall x :: multiset(r)[x] == if p(x) then multiset(s)[x] else 0
    ensures IsSubseq(r, s)
    decreases |s|
  {
    if s == [] then
      []
    else
      var rest := Filter(s[1..], p);
      if p(s[0]) then
        FilterKeepStep(s, p, rest);
        [s[0]] + rest
      else
        FilterDropStep(s, p, rest);
        rest
  }

  /** The three properties a filtered list has with respect to its source. */
  ghost predicate FilteredFrom<T(!new)>(r: seq<T>, s: seq<T>, p: T -> bool) {
    && (forall i :: 0 <= i < |r| ==> p(r[i]))
    && (forall x :: multiset(r)[x] == if p(x) then multiset(s)[x] else 0)
    && IsSubseq(r, s)
  }

  lemma FilterKeepStep<T(!new)>(s: seq<T>, p: T -> bool, rest: seq<T>)
    requires s != [] && p(s[0]) && FilteredFrom(rest, s[1..], p)
    ensures FilteredFrom([s[0]] + rest, s, p)
  {
    assert s == [s[0]] + s[1..];
    assert ([s[0]] + rest)[1..] == rest;
  }

  lemma FilterDropStep<T(!new)>(s: seq<T>, p: T -> bool, rest: seq<T>)
    requires s != [] && !p(s[0]) && FilteredFrom(rest, s[1..], p)
    ensures FilteredFrom(rest, s, p)
  {
    assert s == [s[0]] + s[1..];
    assert rest != [] ==> rest[0] != s[0];
  }

  /** One step of the comprehension. */
  lemma FilterCons<T(!new)>(s: seq<T>, p: T -> bool)
    requires s != []
    ensures Filter(s, p) == if p(s[0]) then [s[0]] + Filter(s[1..], p) else Filter(s[1..], p)
  {
  }

  /** Filtering twice with the same condition is filtering once. */
  lemma {:induction false} FilterIdempotent<T(!new)>(s: seq<T>, p: T -> bool)
    ensures Filter(Filter(s, p), p) == Filter(s, p)
    decreases |s|
  {
    if s != [] {
      FilterIdempotent(s[1..], p);
      if p(s[0]) {
        assert ([s[0]] + Filter(s[1..], p))[1..] == Filter(s[1..], p);
      }
    }
  }

  /** Two filters in a row keep what one filter by the conjunction keeps. */
  lemma {:induction false} FilterFuse<T(!new)>(s: seq<T>, p: T -> bool, q: T -> bool, pq: T -> bool)
    requires forall x :: pq(x) == (p(x) && q(x))
    ensures Filter(Filter(s, p), q) == Filter(s, pq)
    decreases |s|
  {
    if s != [] {
      FilterFuse(s[1..], p, q, pq);
      if p(s[0]) {
        assert ([s[0]] + Filter(s[1..], p))[1..] == Filter(s[1..], p);
      }
    }
  }

  /** A condition every element meets keeps the whole list. */
  lemma {:induction false} FilterKeepsAll<T(!new)>(s: seq<T>, p: T -> bool)
    requires forall i :: 0 <= i < |s| ==> p(s[i])
    ensures Filter(s, p) == s
    decreases |s|
  {
    if s != [] {
      FilterKeepsAll(s[1..], p);
      FilterCons(s, p);
      assert s == [s[0]] + s[1..];
    }
  }

  /** Filters by pointwise-equal conditions agree. */
  lemma {:induction false} FilterExtensional<T(!new)>(s: seq<T>, p: T -> bool, q: T -> bool)
    requires forall x :: p(x) == q(x)
    ensures Filter(s, p) == Filter(s, q)
    decreases |s|
  {
    if s != [] {
      FilterExtensional(s[1..], p, q);
    }
  }
}
