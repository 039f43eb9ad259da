/** Order-preserving selection over sequences, the one primitive behind every
    derived list of the todo app (`done()`, `remaining()`, the filtered rows,
    the collection after a destroy). */
module Seqs {

  /** The elements of `s` that satisfy `keep`, in their original order. */
  function Filter<T(!new)>(s: seq<T>, keep: T -> bool): (r: seq<T>)
    ensures |r| <= |s|
    ensures forall x {:trigger x in r} :: x in r <==> x in s && keep(x)
  {
    if s == [] then []
    else (if keep(s[0]) then [s[0]] else []) + Filter(s[1..], keep)
  }

  /** Selects every element other than `x`. */
  function IsNot<T(==)>(x: T): T -> bool {
    (y: T) => y != x
  }

  /** Selects every element that does not occur in `xs`. */
  function NotAmong<T(==)>(xs: seq<T>): T -> bool {
    (y: T) => y !in xs
  }

  /** `rel` relates every element of `s` to every later element. */
  ghost predicate Pairwise<T>(s: seq<T>, rel: (T, T) -> bool) {
    forall i, j :: 0 <= i < j < |s| ==> rel(s[i], s[j])
  }

  /** Filtering a concatenation filters each part: the selection keeps order. */
  lemma {:induction false} FilterAppend<T(!new)>(a: seq<T>, b: seq<T>, keep: T -> bool)
    ensures Filter(a + b, keep) == Filter(a, keep) + Filter(b, keep)
  {
    if a == [] {
      assert a + b == b;
    } else {
      var head := if keep(a[0]) then [a[0]] else [];
      assert (a + b)[0] == a[0];
      assert (a + b)[1..] == a[1..] + b;
      FilterAppend(a[1..], b, keep);
      assert Filter(a + b, keep) == head + Filter(a[1..] + b, keep);
      assert Filter(a, keep) == head + Filter(a[1..], keep);
      assert head + (Filter(a[1..], keep) + Filter(b, keep))
          == (head + Filter(a[1..], keep)) + Filter(b, keep);
    }
  }

  /** Two selections that agree on the elements of `s` select the same sequence. */
  lemma {:induction false} FilterCongruent<T(!new)>(s: seq<T>, p: T -> bool, q: T -> bool)
    requires forall x :: x in s ==> p(x) == q(x)
    ensures Filter(s, p) == Filter(s, q)
  {
    if s != [] {
      assert forall x :: x in s[1..] ==> x in s;
      FilterCongruent(s[1..], p, q);
    }
  }

  /** Selecting twice is selecting once by the conjunction `pq`. */
  lemma {:induction false} FilterFilter<T(!new)>(s: seq<T>, p: T -> bool, q: T -> bool, pq: T -> bool)
    requires forall x :: pq(x) == (p(x) && q(x))
    ensures Filter(Filter(s, p), q) == Filter(s, pq)
  {
    if s != [] {
      FilterFilter(s[1..], p, q, pq);
      if p(s[0]) {
        assert Filter(s, p) == [s[0]] + Filter(s[1..], p);
        assert Filter(s, p)[1..] == Filter(s[1..], p);
      } else {
        assert Filter(s, p) == Filter(s[1..], p);
      }
    }
  }

  /** A selection and its complement together have as many elements as `s`. */
  lemma {:induction false} FilterSplit<T(!new)>(s: seq<T>, p: T -> bool, q: T -> bool)
    requires forall x :: q(x) == !p(x)
    ensures |Filter(s, p)| + |Filter(s, q)| == |s|
  {
    if s != [] {
      FilterSplit(s[1..], p, q);
    }
  }

  /** Selecting by a condition every element meets changes nothing. */
  lemma {:induction false} FilterKeepsAll<T(!new)>(s: seq<T>, keep: T -> bool)
    requires forall x :: x in s ==> keep(x)
    ensures Filter(s, keep) == s
  {
    if s != [] {
      assert forall x :: x in s[1..] ==> x in s;
      FilterKeepsAll(s[1..], keep);
      assert s == [s[0]] + s[1..];
    }
  }

  /** Selecting by a condition that rejects exactly the element at `i` splices
      that element out and leaves every other element where it was. */
  lemma {:induction false} FilterDropsOne<T(!new)>(s: seq<T>, keep: T -> bool, i: nat)
    requires i < |s| && !keep(s[i])
    requires forall j :: 0 <= j < |s| && j != i ==> keep(s[j])
    ensures Filter(s, keep) == s[..i] + s[i + 1..]
  {
    var a, b := s[..i], s[i + 1..];
    var mid := [s[i]] + b;
    assert Filter(a, keep) == a by {
      forall x | x in a ensures keep(x) {
        var k :| 0 <= k < |a| && a[k] == x;
        assert s[k] == x;
      }
      FilterKeepsAll(a, keep);
    }
    assert Filter(mid, keep) == b by {
      forall x | x in b ensures keep(x) {
        var k :| 0 <= k < |b| && b[k] == x;
        assert s[i + 1 + k] == x;
      }
      FilterKeepsAll(b, keep);
      assert mid[0] == s[i] && mid[1..] == b;
    }
    assert s == a + mid;
    FilterAppend(a, mid, keep);
  }

  /** A pairwise relation survives any selection (a subsequence keeps it). */
  lemma {:induction false} FilterPairwise<T(!new)>(s: seq<T>, keep: T -> bool, rel: (T, T) -> bool)
    requires Pairwise(s, rel)
    ensures Pairwise(Filter(s, keep), rel)
  {
    if s != [] {
      var rest := Filter(s[1..], keep);
      FilterPairwise(s[1..], keep, rel);
      if keep(s[0]) {
        forall j | 0 <= j < |rest|
          ensures rel(s[0], rest[j])
        {
          assert rest[j] in rest;
          assert rest[j] in s[1..];
          var k :| 0 <= k < |s[1..]| && s[1..][k] == rest[j];
          assert s[k + 1] == rest[j];
        }
        assert Filter(s, keep) == [s[0]] + rest;
      }
    }
  }

  /** Extending a pairwise-related sequence by an element every member relates to. */
  lemma PairwiseSnoc<T>(a: seq<T>, x: T, rel: (T, T) -> bool)
    requires Pairwise(a, rel)
    requires forall i :: 0 <= i < |a| ==> rel(a[i], x)
    ensures Pairwise(a + [x], rel)
  {
    forall i, j | 0 <= i < j < |a| + 1
      ensures rel((a + [x])[i], (a + [x])[j])
    {
      if j < |a| {
        assert (a + [x])[i] == a[i] && (a + [x])[j] == a[j];
      } else {
        assert (a + [x])[i] == a[i] && (a + [x])[j] == x;
      }
    }
  }
}
