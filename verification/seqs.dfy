/** Order-preserving filtering of sequences, the model of a Java
    `stream().filter(...).collect(toList())` pipeline.
 */
module Seqs {

  /** `a` can be obtained from `b` by deleting elements (greedy matching). */
  predicate IsSubsequence<T(==)>(a: seq<T>, b: seq<T>)
    decreases |b|
  {
    if a == [] then true
    else if b == [] then false
    else if a[0] == b[0] then IsSubsequence(a[1..], b[1..])
    else IsSubsequence(a, b[1..])
  }

  /** The elements of `xs` that satisfy `p`, in their original order. */
  function Filter<T(==)>(xs: seq<T>, p: T -> bool): (r: seq<T>)
    ensures |r| <= |xs|
    ensures forall i :: 0 <= i < |r| ==> r[i] in xs && p(r[i])
    ensures forall i :: 0 <= i < |xs| && p(xs[i]) ==> xs[i] in r
    ensures IsSubsequence(r, xs)
  {
    if xs == [] then []
    else
      var rest := Filter(xs[1..], p);
      if p(xs[0]) then
        assert ([xs[0]] + rest)[1..] == rest;
        [xs[0]] + rest
      else
        assert rest == [] || rest[0] != xs[0];
        rest
  }

  /** Filtering by `p` and then by `q` is filtering once by their conjunction `both`. */
  lemma {:induction false} FilterTwice<T>(xs: seq<T>, p: T -> bool, q: T -> bool, both: T -> bool)
    requires forall i :: 0 <= i < |xs| ==> both(xs[i]) == (p(xs[i]) && q(xs[i]))
    ensures Filter(Filter(xs, p), q) == Filter(xs, both)
  {
    if xs != [] {
      FilterTwice(xs[1..], p, q, both);
      if p(xs[0]) {
        assert Filter(xs, p)[1..] == Filter(xs[1..], p);
      }
    }
  }

  /** A predicate that holds of every element keeps the whole sequence. */
  lemma {:induction false} FilterAll<T>(xs: seq<T>, p: T -> bool)
    requires forall i :: 0 <= i < |xs| ==> p(xs[i])
    ensures Filter(xs, p) == xs
  {
    if xs != [] {
      FilterAll(xs[1..], p);
    }
  }

  /** A stronger predicate keeps a subsequence of what a weaker one keeps. */
  lemma {:induction false} FilterMonotone<T>(xs: seq<T>, p: T -> bool, q: T -> bool)
    requires forall x :: p(x) ==> q(x)
    ensures forall x :: x in Filter(xs, p) ==> x in Filter(xs, q)
    ensures |Filter(xs, p)| <= |Filter(xs, q)|
  {
    if xs != [] {
      FilterMonotone(xs[1..], p, q);
    }
  }

  /** Predicates that agree on the elements of `xs` filter it alike. */
  lemma {:induction false} FilterExt<T>(xs: seq<T>, p: T -> bool, q: T -> bool)
    requires forall i :: 0 <= i < |xs| ==> p(xs[i]) == q(xs[i])
    ensures Filter(xs, p) == Filter(xs, q)
  {
    if xs != [] {
      FilterExt(xs[1..], p, q);
    }
  }

  /** A stream filter applied only when its criterion `c` was supplied. */
  function FilterIf<T(==)>(xs: seq<T>, c: bool, p: T -> bool): seq<T> {
    if c then Filter(xs, p) else xs
  }

  /** An optional filter is one filter by `q`, the predicate that `c` switches on. */
  lemma FilterIfIsFilter<T>(xs: seq<T>, c: bool, p: T -> bool, q: T -> bool)
    requires forall x :: q(x) == (!c || p(x))
    ensures FilterIf(xs, c, p) == Filter(xs, q)
  {
    if c {
      FilterExt(xs, p, q);
    } else {
      FilterAll(xs, q);
    }
  }

  /** Three optional filters in a row keep what one pass with their conjunction `all` keeps. */
  lemma FilterIfThrice<T>(xs: seq<T>, c1: bool, p1: T -> bool, c2: bool, p2: T -> bool, c3: bool, p3: T -> bool,
                          all: T -> bool)
    requires forall i :: 0 <= i < |xs| ==>
      all(xs[i]) == ((!c1 || p1(xs[i])) && (!c2 || p2(xs[i])) && (!c3 || p3(xs[i])))
    ensures FilterIf(FilterIf(FilterIf(xs, c1, p1), c2, p2), c3, p3) == Filter(xs, all)
  {
    var q1 := x => !c1 || p1(x);
    var q2 := x => !c2 || p2(x);
    var q3 := x => !c3 || p3(x);
    var q12 := x => q1(x) && q2(x);
    FilterIfIsFilter(xs, c1, p1, q1);
    var a := Filter(xs, q1);
    FilterIfIsFilter(a, c2, p2, q2);
    FilterTwice(xs, q1, q2, q12);
    var b := Filter(xs, q12);
    FilterIfIsFilter(b, c3, p3, q3);
    FilterTwice(xs, q12, q3, all);
  }
}
