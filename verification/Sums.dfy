/** Sums over sequences, and the cost and Kraft sum of an assignment of code lengths. */
module Sums {
  import opened Bits

  function Sum(s: seq<int>): int {
    if s == [] then 0 else Sum(s[..|s| - 1]) + s[|s| - 1]
  }

  lemma {:induction false} SumUpdate(s: seq<int>, i: nat, v: int)
    requires i < |s|
    ensures Sum(s[i := v]) == Sum(s) - s[i] + v
  {
    var n := |s| - 1;
    if i == n {
      assert s[i := v][..n] == s[..n];
    } else {
      SumUpdate(s[..n], i, v);
      assert s[i := v][..n] == s[..n][i := v];
    }
  }

  lemma {:induction false} SumNonneg(s: seq<int>)
    requires forall i :: 0 <= i < |s| ==> s[i] >= 0
    ensures Sum(s) >= 0
    ensures forall i :: 0 <= i < |s| ==> s[i] <= Sum(s)
  {
    if s != [] {
      SumNonneg(s[..|s| - 1]);
    }
  }

  lemma {:induction false} SumAdd(a: seq<int>, b: seq<int>, c: seq<int>)
    requires |a| == |b| == |c|
    requires forall i :: 0 <= i < |a| ==> c[i] == a[i] + b[i]
    ensures Sum(c) == Sum(a) + Sum(b)
  {
    if a != [] {
      var n := |a| - 1;
      SumAdd(a[..n], b[..n], c[..n]);
    }
  }

  lemma {:induction false} SumZero(s: seq<int>)
    requires forall i :: 0 <= i < |s| ==> s[i] == 0
    ensures Sum(s) == 0
  {
    if s != [] {
      SumZero(s[..|s| - 1]);
    }
  }

  /** A sum of multiples is a multiple. */
  lemma {:induction false} SumScaled(s: seq<int>, q: seq<int>, u: int)
    requires |s| == |q|
    requires forall i :: 0 <= i < |s| ==> s[i] == q[i] * u
    ensures Sum(s) == Sum(q) * u
  {
    if s != [] {
      var n := |s| - 1;
      SumScaled(s[..n], q[..n], u);
      Distribute(Sum(q[..n]), q[n], u);
    }
  }

  // ---- sums over a set of indices ----

  /** The sequence with everything outside the set zeroed. */
  function Masked(g: seq<int>, m: set<nat>): (r: seq<int>)
    ensures |r| == |g|
  {
    seq(|g|, i requires 0 <= i < |g| => if i in m then g[i] else 0)
  }

  function SumOver(g: seq<int>, m: set<nat>): int {
    Sum(Masked(g, m))
  }

  lemma SumOverUnion(g: seq<int>, a: set<nat>, b: set<nat>)
    requires a !! b
    ensures SumOver(g, a + b) == SumOver(g, a) + SumOver(g, b)
  {
    SumAdd(Masked(g, a), Masked(g, b), Masked(g, a + b));
  }

  lemma SumOverOne(g: seq<int>, i: nat)
    requires i < |g|
    ensures SumOver(g, {i}) == g[i]
  {
    var z := Masked(g, {});
    SumZero(z);
    assert Masked(g, {i}) == z[i := g[i]];
    SumUpdate(z, i, g[i]);
  }

  lemma SubsetSize<T>(a: set<T>, b: set<T>)
    requires forall x :: x in a ==> x in b
    ensures |a| <= |b|
  {
    assert b == a + (b - a);
  }

  // ---- code lengths ----

  /** freq[i] * len[i], symbol by symbol. */
  function CostTerms(freq: seq<nat>, len: seq<nat>): (r: seq<int>)
    requires |freq| == |len|
    ensures |r| == |freq|
  {
    seq(|freq|, i requires 0 <= i < |freq| => freq[i] * len[i])
  }

  /** Total length of the data when symbol i, occurring freq[i] times, has a code of len[i] bits. */
  function Cost(freq: seq<nat>, len: seq<nat>): int
    requires |freq| == |len|
  {
    Sum(CostTerms(freq, len))
  }

  /** 2^(n - len[i]) for every symbol in use. */
  function KraftTerms(freq: seq<nat>, len: seq<nat>, n: nat): (r: seq<int>)
    requires |freq| == |len|
    ensures |r| == |freq|
    ensures forall i :: 0 <= i < |r| ==> r[i] >= 0
  {
    seq(|freq|, i requires 0 <= i < |freq| => if freq[i] > 0 && len[i] <= n then Pow2(n - len[i]) else 0)
  }

  /** The Kraft sum in units of 2^-n. */
  function Kraft(freq: seq<nat>, len: seq<nat>, n: nat): int
    requires |freq| == |len|
  {
    Sum(KraftTerms(freq, len, n))
  }

  /** Lengths that some prefix code for the symbols in use has; n bounds the lengths. */
  ghost predicate Feasible(freq: seq<nat>, len: seq<nat>, n: nat) {
    && |freq| == |len|
    && (forall i :: 0 <= i < |freq| && freq[i] > 0 ==> len[i] <= n)
    && Kraft(freq, len, n) <= Pow2(n)
  }
}
