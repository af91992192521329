/** Sequence operations shared by the adapters, the deduplicator and the browse filter. */
module Seqs {

  /** `a` can be obtained from `b` by deleting elements, keeping the order of the rest. */
  predicate IsSubseq<T(==)>(a: seq<T>, b: seq<T>)
    decreases |b|
  {
    || a == []
    || (b != [] && ((a[0] == b[0] && IsSubseq(a[1..], b[1..])) || IsSubseq(a, b[1..])))
  }

  lemma {:induction false} IsSubseqRefl<T>(a: seq<T>)
    ensures IsSubseq(a, a)
  {
    if a != [] {
      IsSubseqRefl(a[1..]);
    }
  }

  /** `xs.filter(p)`: the elements satisfying `p`, in their original order. */
  function Filter<T(==)>(xs: seq<T>, p: T -> bool): (r: seq<T>)
    ensures |r| <= |xs|
    ensures forall i :: 0 <= i < |r| ==> r[i] in xs && p(r[i])
    ensures forall i :: 0 <= i < |xs| && p(xs[i]) ==> xs[i] in r
    ensures IsSubseq(r, xs)
  {
    if xs == [] then []
    else if p(xs[0]) then
      var r := [xs[0]] + Filter(xs[1..], p);
      assert r[1..] == Filter(xs[1..], p);
      r
    else Filter(xs[1..], p)
  }

  /** Filtering keeps every copy of an element that passes and no copy of one that does not. */
  lemma {:induction false} FilterCounts<T>(xs: seq<T>, p: T -> bool)
    ensures forall x :: multiset(Filter(xs, p))[x] == if p(x) then multiset(xs)[x] else 0
  {
    if xs != [] {
      FilterCounts(xs[1..], p);
      assert xs == [xs[0]] + xs[1..];
      if p(xs[0]) {
        assert Filter(xs, p) == [xs[0]] + Filter(xs[1..], p);
      }
    }
  }

  lemma {:induction false} FilterAll<T>(xs: seq<T>, p: T -> bool)
    requires forall i :: 0 <= i < |xs| ==> p(xs[i])
    ensures Filter(xs, p) == xs
  {
    if xs != [] {
      FilterAll(xs[1..], p);
    }
  }

  /** Filtering depends only on the values the predicate takes on the elements. */
  lemma {:induction false} FilterExt<T>(xs: seq<T>, p: T -> bool, q: T -> bool)
    requires forall i :: 0 <= i < |xs| ==> p(xs[i]) == q(xs[i])
    ensures Filter(xs, p) == Filter(xs, q)
  {
    if xs != [] {
      FilterExt(xs[1..], p, q);
    }
  }

  lemma {:induction false} FilterNone<T>(xs: seq<T>, p: T -> bool)
    requires forall i :: 0 <= i < |xs| ==> !p(xs[i])
    ensures Filter(xs, p) == []
  {
    if xs != [] {
      FilterNone(xs[1..], p);
    }
  }

  /** Two filters in a row are one filter by the conjunction. */
  lemma {:induction false} FilterFilter<T>(xs: seq<T>, p: T -> bool, q: T -> bool, pq: T -> bool)
    requires forall x :: pq(x) == (p(x) && q(x))
    ensures Filter(Filter(xs, p), q) == Filter(xs, pq)
  {
    if xs != [] {
      FilterFilter(xs[1..], p, q, pq);
      if p(xs[0]) {
        assert ([xs[0]] + Filter(xs[1..], p))[1..] == Filter(xs[1..], p);
      }
    }
  }

  /** Four filters in a row are one filter by the conjunction of the four. */
  lemma FilterFour<T>(xs: seq<T>, p1: T -> bool, p2: T -> bool, p3: T -> bool, p4: T -> bool, all: T -> bool)
    requires forall x :: all(x) == (p1(x) && p2(x) && p3(x) && p4(x))
    ensures Filter(Filter(Filter(Filter(xs, p1), p2), p3), p4) == Filter(xs, all)
  {
    var p12 := x => p1(x) && p2(x);
    var p123 := x => p12(x) && p3(x);
    FilterFilter(xs, p1, p2, p12);
    FilterFilter(xs, p12, p3, p123);
    FilterFilter(xs, p123, p4, all);
  }

  lemma {:induction false} FilterAppend<T>(a: seq<T>, b: seq<T>, p: T -> bool)
    ensures Filter(a + b, p) == Filter(a, p) + Filter(b, p)
  {
    if a == [] {
      assert a + b == b;
    } else {
      assert (a + b)[1..] == a[1..] + b;
      FilterAppend(a[1..], b, p);
    }
  }

  /** `xs.slice(0, n)`. */
  function Take<T>(xs: seq<T>, n: nat): (r: seq<T>)
    ensures |r| == if |xs| <= n then |xs| else n
    ensures r == xs[..|r|]
  {
    if |xs| <= n then xs else xs[..n]
  }

  /** `xs.map(f)`. */
  function MapSeq<T, U>(xs: seq<T>, f: T -> U): (r: seq<U>)
    ensures |r| == |xs|
    ensures forall i :: 0 <= i < |xs| ==> r[i] == f(xs[i])
  {
    if xs == [] then [] else [f(xs[0])] + MapSeq(xs[1..], f)
  }
}
