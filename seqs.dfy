/** `Array.prototype.filter` and what every use of it in the application relies on. */
module Seqs {

  /** The elements of `xs` that satisfy `keep`, in their original order. */
  function Filter<T>(keep: T -> bool, xs: seq<T>): (r: seq<T>)
    ensures |r| <= |xs|
    ensures forall k :: 0 <= k < |r| ==> r[k] in xs && keep(r[k])
    ensures forall k :: 0 <= k < |xs| && keep(xs[k]) ==> xs[k] in r
  {
    if |xs| == 0 then [] else (if keep(xs[0]) then [xs[0]] else []) + Filter(keep, xs[1..])
  }

  /** `out` is `xs` with some elements dropped and the rest kept in order. */
  ghost predicate IsSubsequence<T>(out: seq<T>, xs: seq<T>)
    decreases |xs|
  {
    if |xs| == 0 then |out| == 0
    else (|out| > 0 && out[0] == xs[0] && IsSubsequence(out[1..], xs[1..])) || IsSubsequence(out, xs[1..])
  }

  /** Filtering keeps the order of the input. */
  lemma {:induction false} FilterIsSubsequence<T>(keep: T -> bool, xs: seq<T>)
    ensures IsSubsequence(Filter(keep, xs), xs)
  {
    if |xs| > 0 {
      FilterIsSubsequence(keep, xs[1..]);
      var r := Filter(keep, xs);
      if keep(xs[0]) {
        assert r == [xs[0]] + Filter(keep, xs[1..]);
        assert r[0] == xs[0] && r[1..] == Filter(keep, xs[1..]);
      } else {
        assert r == Filter(keep, xs[1..]);
      }
    }
  }

  /** Filtering distributes over concatenation. */
  lemma {:induction false} FilterConcat<T>(keep: T -> bool, a: seq<T>, b: seq<T>)
    ensures Filter(keep, a + b) == Filter(keep, a) + Filter(keep, b)
  {
    if |a| > 0 {
      assert (a + b)[1..] == a[1..] + b;
      FilterConcat(keep, a[1..], b);
    } else {
      assert a + b == b;
    }
  }

  /** Filters with the same outcome on every element keep the same elements. */
  lemma {:induction false} FilterSame<T>(k1: T -> bool, k2: T -> bool, xs: seq<T>)
    requires forall x :: k1(x) == k2(x)
    ensures Filter(k1, xs) == Filter(k2, xs)
  {
    if |xs| > 0 {
      FilterSame(k1, k2, xs[1..]);
    }
  }

  /** A filter that keeps everything is the identity. */
  lemma {:induction false} FilterKeepsAll<T>(keep: T -> bool, xs: seq<T>)
    requires forall k :: 0 <= k < |xs| ==> keep(xs[k])
    ensures Filter(keep, xs) == xs
  {
    if |xs| > 0 {
      FilterKeepsAll(keep, xs[1..]);
    }
  }

  /** Two filters one after the other are one filter on the conjunction. */
  lemma {:induction false} FilterFilter<T>(first: T -> bool, second: T -> bool, both: T -> bool, xs: seq<T>)
    requires forall x :: both(x) == (first(x) && second(x))
    ensures Filter(second, Filter(first, xs)) == Filter(both, xs)
  {
    if |xs| > 0 {
      FilterFilter(first, second, both, xs[1..]);
      var f := Filter(first, xs);
      if first(xs[0]) {
        assert f == [xs[0]] + Filter(first, xs[1..]);
        assert f[0] == xs[0] && f[1..] == Filter(first, xs[1..]);
      } else {
        assert f == Filter(first, xs[1..]);
      }
    }
  }

  /** A weaker condition keeps a superset, still as a subsequence of the weaker result. */
  lemma {:induction false} FilterMonotone<T>(strong: T -> bool, weak: T -> bool, xs: seq<T>)
    requires forall x :: strong(x) ==> weak(x)
    ensures IsSubsequence(Filter(strong, xs), Filter(weak, xs))
    ensures |Filter(strong, xs)| <= |Filter(weak, xs)|
  {
    if |xs| > 0 {
      FilterMonotone(strong, weak, xs[1..]);
      var s, w := Filter(strong, xs), Filter(weak, xs);
      if strong(xs[0]) {
        assert s == [xs[0]] + Filter(strong, xs[1..]) && w == [xs[0]] + Filter(weak, xs[1..]);
        assert s[1..] == Filter(strong, xs[1..]) && w[1..] == Filter(weak, xs[1..]);
      } else if weak(xs[0]) {
        assert s == Filter(strong, xs[1..]) && w == [xs[0]] + Filter(weak, xs[1..]);
        assert w[1..] == Filter(weak, xs[1..]);
      } else {
        assert s == Filter(strong, xs[1..]) && w == Filter(weak, xs[1..]);
      }
    }
  }

  /** A filter and the filter on its negation split the input: every element
      lands in exactly one of the two, counted with multiplicity. */
  lemma {:induction false} FilterPartition<T>(keep: T -> bool, drop: T -> bool, xs: seq<T>)
    requires forall x :: drop(x) == !keep(x)
    ensures multiset(Filter(keep, xs)) + multiset(Filter(drop, xs)) == multiset(xs)
    ensures |Filter(keep, xs)| + |Filter(drop, xs)| == |xs|
  {
    if |xs| > 0 {
      FilterPartition(keep, drop, xs[1..]);
      assert xs == [xs[0]] + xs[1..];
    }
  }

  /** Filtering keeps every copy of a kept value and no copy of a dropped one. */
  lemma {:induction false} FilterCount<T>(keep: T -> bool, xs: seq<T>, x: T)
    ensures multiset(Filter(keep, xs))[x] == if keep(x) then multiset(xs)[x] else 0
  {
    if |xs| > 0 {
      FilterCount(keep, xs[1..], x);
      assert xs == [xs[0]] + xs[1..];
    }
  }
}
