/** Sequences with the same elements in another order. */
module Permutations {

  lemma SameMembers<T>(xs: seq<T>, ys: seq<T>)
    requires multiset(xs) == multiset(ys)
    ensures forall x :: x in xs <==> x in ys
  {
    forall x ensures x in xs <==> x in ys {
      assert x in xs <==> x in multiset(xs);
      assert x in ys <==> x in multiset(ys);
    }
  }

  function Without<T>(xs: seq<T>, p: nat): seq<T>
    requires p < |xs|
  {
    xs[..p] + xs[p + 1..]
  }

  lemma WithoutCounts<T>(xs: seq<T>, p: nat)
    requires p < |xs|
    ensures multiset(Without(xs, p)) == multiset(xs) - multiset{xs[p]}
  {
    assert xs == xs[..p] + [xs[p]] + xs[p + 1..];
  }

  /** Any two positions of one order correspond to two different positions of the other. */
  lemma TwoPositions<T>(xs: seq<T>, ys: seq<T>, i: nat, j: nat) returns (p: nat, q: nat)
    requires multiset(xs) == multiset(ys) && i < j < |ys|
    ensures p < |xs| && q < |xs| && p != q && xs[p] == ys[i] && xs[q] == ys[j]
  {
    SameMembers(xs, ys);
    assert ys[i] in xs;
    p :| 0 <= p < |xs| && xs[p] == ys[i];
    WithoutCounts(xs, p);
    WithoutCounts(ys, i);
    assert Without(ys, i)[j - 1] == ys[j];
    q := ElsewhereToo(xs, p, Without(ys, i), ys[j]);
  }

  lemma ElsewhereToo<T>(xs: seq<T>, p: nat, others: seq<T>, y: T) returns (q: nat)
    requires p < |xs| && multiset(Without(xs, p)) == multiset(others) && y in others
    ensures q < |xs| && q != p && xs[q] == y
  {
    SameMembers(Without(xs, p), others);
    var q' :| 0 <= q' < |Without(xs, p)| && Without(xs, p)[q'] == y;
    q := if q' < p then q' else q' + 1;
  }

  function Map<A, B>(f: A -> B, xs: seq<A>): (r: seq<B>)
    ensures |r| == |xs| && forall i :: 0 <= i < |xs| ==> r[i] == f(xs[i])
  {
    seq(|xs|, i requires 0 <= i < |xs| => f(xs[i]))
  }

  /** Mapping two orders of the same elements gives two orders of the same results. */
  lemma {:induction false} MapPermutes<A, B>(f: A -> B, xs: seq<A>, ys: seq<A>)
    requires multiset(xs) == multiset(ys)
    ensures multiset(Map(f, xs)) == multiset(Map(f, ys))
    decreases |xs|
  {
    if xs == [] {
      assert |multiset(ys)| == 0;
      assert Map(f, xs) == Map(f, ys) == [];
    } else {
      SameMembers(xs, ys);
      assert xs[0] in ys;
      var q :| 0 <= q < |ys| && ys[q] == xs[0];
      WithoutCounts(xs, 0);
      WithoutCounts(ys, q);
      MapPermutes(f, Without(xs, 0), Without(ys, q));
      assert Map(f, Without(xs, 0)) == Without(Map(f, xs), 0);
      assert Map(f, Without(ys, q)) == Without(Map(f, ys), q);
      WithoutCounts(Map(f, xs), 0);
      WithoutCounts(Map(f, ys), q);
      PutBack(Map(f, xs), 0, Map(f, ys), q);
    }
  }

  lemma PutBack<T>(xs: seq<T>, p: nat, ys: seq<T>, q: nat)
    requires p < |xs| && q < |ys| && xs[p] == ys[q]
    requires multiset(Without(xs, p)) == multiset(Without(ys, q))
    ensures multiset(xs) == multiset(ys)
  {
    assert xs == xs[..p] + [xs[p]] + xs[p + 1..];
    assert ys == ys[..q] + [ys[q]] + ys[q + 1..];
    assert multiset(xs) == multiset(Without(xs, p)) + multiset{xs[p]};
    assert multiset(ys) == multiset(Without(ys, q)) + multiset{ys[q]};
  }
}
