/** Sums over the prefixes of a sequence, the shape of a loop that adds up
    something per element. */
module Prefix {

  /** The sum of `w` over the elements of xs. */
  function SumBy<T>(xs: seq<T>, w: T -> nat): nat
  {
    if xs == [] then 0 else SumBy(xs[..|xs| - 1], w) + w(xs[|xs| - 1])
  }

  /** One more element adds its own weight. */
  lemma SumByStep<T>(xs: seq<T>, i: nat, w: T -> nat)
    requires i < |xs|
    ensures SumBy(xs[..i + 1], w) == SumBy(xs[..i], w) + w(xs[i])
  {
    var p := xs[..i + 1];
    assert p[..|p| - 1] == xs[..i];
    assert p[|p| - 1] == xs[i];
  }

  /** Sums over consecutive pieces add up. */
  lemma {:induction false} SumByConcat<T>(a: seq<T>, b: seq<T>, w: T -> nat)
    ensures SumBy(a + b, w) == SumBy(a, w) + SumBy(b, w)
    decreases |b|
  {
    if b == [] {
      assert a + b == a;
    } else {
      var b' := b[..|b| - 1];
      assert (a + b)[..|a + b| - 1] == a + b';
      assert (a + b)[|a + b| - 1] == b[|b| - 1];
      SumByConcat(a, b', w);
    }
  }

  /** A prefix weighs no more than the whole sequence. */
  lemma SumByPrefix<T>(xs: seq<T>, j: nat, w: T -> nat)
    requires j <= |xs|
    ensures SumBy(xs[..j], w) <= SumBy(xs, w)
  {
    SumByConcat(xs[..j], xs[j..], w);
    assert xs[..j] + xs[j..] == xs;
  }

  /** No element weighs more than its bound, so the sum is at most the
      bound times the length. */
  lemma {:induction false} SumByBound<T>(xs: seq<T>, w: T -> nat, k: nat)
    requires forall i :: 0 <= i < |xs| ==> w(xs[i]) <= k
    ensures SumBy(xs, w) <= k * |xs|
    decreases |xs|
  {
    if xs != [] {
      var p := xs[..|xs| - 1];
      assert forall i :: 0 <= i < |p| ==> p[i] == xs[i];
      SumByBound(p, w, k);
      assert w(xs[|xs| - 1]) <= k;
    }
  }
}
