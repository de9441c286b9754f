/** Why merging the two least frequent symbols is optimal: from any feasible lengths, lengths for the merged
    symbols can be made that are feasible and cheaper by at least the merged frequency. */
module HuffmanOptimality {
  import opened Bits
  import opened Sums

  /** c has the smallest nonzero frequency apart from index excl; ties go to the larger index. */
  ghost predicate Smallest(freq: seq<nat>, c: int, excl: int) {
    && 0 <= c < |freq| && freq[c] > 0 && c != excl
    && forall i :: 0 <= i < |freq| && freq[i] > 0 && i != excl ==> freq[c] < freq[i] || (freq[c] == freq[i] && i <= c)
  }

  function Merged(freq: seq<nat>, c1: nat, c2: nat): (r: seq<nat>)
    requires c1 < |freq| && c2 < |freq| && c1 != c2
    ensures |r| == |freq|
  {
    freq[c1 := freq[c1] + freq[c2]][c2 := 0]
  }

  lemma CostUpdate(freq: seq<nat>, len: seq<nat>, i: nat, v: nat)
    requires |freq| == |len| && i < |freq|
    ensures Cost(freq, len[i := v]) == Cost(freq, len) - freq[i] * len[i] + freq[i] * v
  {
    var t := CostTerms(freq, len);
    assert CostTerms(freq, len[i := v]) == t[i := freq[i] * v];
    SumUpdate(t, i, freq[i] * v);
  }

  lemma KraftUpdate(freq: seq<nat>, len: seq<nat>, n: nat, i: nat, v: nat)
    requires |freq| == |len| && i < |freq| && freq[i] > 0 && len[i] <= n && v <= n
    ensures Kraft(freq, len[i := v], n) == Kraft(freq, len, n) - Pow2(n - len[i]) + Pow2(n - v)
  {
    hide Pow2;
    var t := KraftTerms(freq, len, n);
    assert KraftTerms(freq, len[i := v], n) == t[i := Pow2(n - v)];
    SumUpdate(t, i, Pow2(n - v));
  }

  /** The index of a longest length among symbols in use other than excl. */
  lemma {:induction false} Longest(freq: seq<nat>, len: seq<nat>, excl: int, m: nat) returns (i: nat)
    requires |freq| == |len| && m <= |freq|
    requires exists j :: 0 <= j < m && freq[j] > 0 && j != excl
    ensures i < m && freq[i] > 0 && i != excl
    ensures forall j :: 0 <= j < m && freq[j] > 0 && j != excl ==> len[j] <= len[i]
  {
    var n := m - 1;
    if exists j :: 0 <= j < n && freq[j] > 0 && j != excl {
      i := Longest(freq, len, excl, n);
      if freq[n] > 0 && n != excl && len[n] > len[i] {
        i := n;
      }
    } else {
      i := n;
    }
  }

  /** Giving the longer of two lengths to the rarer symbol costs no more. */
  lemma Exchange(f1: int, f2: int, l1: int, l2: int)
    requires f1 <= f2 && l1 <= l2
    ensures f1 * l2 + f2 * l1 <= f1 * l1 + f2 * l2
  {
    assert (f2 - f1) * (l2 - l1) >= 0;
    assert (f2 - f1) * (l2 - l1) == f2 * l2 - f2 * l1 - f1 * l2 + f1 * l1;
  }

  function Swapped(len: seq<nat>, a: nat, b: nat): (r: seq<nat>)
    requires a < |len| && b < |len|
    ensures |r| == |len|
  {
    len[a := len[b]][b := len[a]]
  }

  /** Swapping the lengths of two symbols in use, the rarer getting the longer one. */
  lemma SwapCheaper(freq: seq<nat>, len: seq<nat>, n: nat, a: nat, b: nat)
    requires Feasible(freq, len, n) && a < |freq| && b < |freq|
    requires 0 < freq[a] <= freq[b] && len[a] <= len[b]
    ensures Feasible(freq, Swapped(len, a, b), n)
    ensures Cost(freq, Swapped(len, a, b)) <= Cost(freq, len)
  {
    hide Pow2, Cost, Kraft;
    var l1 := len[a := len[b]];
    CostUpdate(freq, len, a, len[b]);
    CostUpdate(freq, l1, b, len[a]);
    KraftUpdate(freq, len, n, a, len[b]);
    KraftUpdate(freq, l1, n, b, len[a]);
    if a == b {
      assert l1 == len;
    } else {
      Exchange(freq[a], freq[b], len[a], len[b]);
    }
  }

  /** Feasible lengths stay feasible when a uniquely longest one is cut back to the next longest. */
  lemma CutBack(freq: seq<nat>, len: seq<nat>, n: nat, c1: nat, c2: nat)
    requires Feasible(freq, len, n) && c1 < |freq| && c2 < |freq| && c1 != c2 && freq[c1] > 0 && freq[c2] > 0
    requires len[c2] < len[c1]
    requires forall i :: 0 <= i < |freq| && freq[i] > 0 && i != c1 ==> len[i] <= len[c2]
    ensures Feasible(freq, len[c1 := len[c2]], n)
  {
    hide Pow2, Kraft, Cost;
    var l2 := len[c2];
    var u := Pow2(n - l2);
    KraftUpdate(freq, len, n, c1, l2);
    // everything but the longest term is a multiple of u
    var rest := OthersMultiple(freq, len, n, c1, l2);
    Pow2Add(l2, n - l2);
    assert l2 + (n - l2) == n;
    assert Kraft(freq, len, n) - Pow2(n - len[c1]) == rest * u;
    assert rest * u < Pow2(l2) * u;
    if rest + 1 > Pow2(l2) {
      MulMono(Pow2(l2), rest, u);
    }
    MulMono(rest + 1, Pow2(l2), u);
    Distribute(rest, 1, u);
  }

  lemma OthersMultiple(freq: seq<nat>, len: seq<nat>, n: nat, c1: nat, l2: nat) returns (q: int)
    requires |freq| == |len| && c1 < |freq| && freq[c1] > 0 && len[c1] <= n && l2 <= n
    requires forall i :: 0 <= i < |freq| && freq[i] > 0 && i != c1 ==> len[i] <= l2
    ensures Kraft(freq, len, n) - Pow2(n - len[c1]) == q * Pow2(n - l2)
  {
    hide Pow2;
    var t := KraftTerms(freq, len, n);
    var others := t[c1 := 0];
    SumUpdate(t, c1, 0);
    var qs := seq(|freq|, i requires 0 <= i < |freq| => if freq[i] > 0 && i != c1 then Pow2(l2 - len[i]) else 0);
    forall i | 0 <= i < |freq| ensures others[i] == qs[i] * Pow2(n - l2) {
      if freq[i] > 0 && i != c1 {
        Pow2Add(l2 - len[i], n - l2);
        assert (l2 - len[i]) + (n - l2) == n - len[i];
      }
    }
    SumScaled(others, qs, Pow2(n - l2));
    q := Sum(qs);
  }

  lemma TwoTerms(freq: seq<nat>, len: seq<nat>, n: nat, c1: nat, c2: nat)
    requires Feasible(freq, len, n) && c1 < |freq| && c2 < |freq| && c1 != c2 && freq[c1] > 0 && freq[c2] > 0
    ensures Kraft(freq, len, n) >= Pow2(n - len[c1]) + Pow2(n - len[c2])
  {
    hide Pow2;
    var t := KraftTerms(freq, len, n);
    SumUpdate(t, c1, 0);
    SumNonneg(t[c1 := 0]);
    assert t[c1 := 0][c2] == Pow2(n - len[c2]);
  }

  /** With two symbols in use, no code has length zero. */
  lemma TwoNeedABit(freq: seq<nat>, len: seq<nat>, n: nat, c1: nat, c2: nat)
    requires Feasible(freq, len, n) && c1 < |freq| && c2 < |freq| && c1 != c2 && freq[c1] > 0 && freq[c2] > 0
    ensures len[c1] > 0
  {
    hide Pow2, Kraft;
    TwoTerms(freq, len, n, c1, c2);
    if len[c1] == 0 {
      assert false;
    }
  }

  /** Merging two symbols of equal length into one symbol one bit shorter. */
  lemma MergeEqual(freq: seq<nat>, len: seq<nat>, n: nat, c1: nat, c2: nat)
    requires Feasible(freq, len, n) && c1 < |freq| && c2 < |freq| && c1 != c2 && freq[c1] > 0 && freq[c2] > 0
    requires len[c1] == len[c2] > 0
    ensures var len' := len[c1 := len[c1] - 1];
      && Feasible(Merged(freq, c1, c2), len', n)
      && Cost(Merged(freq, c1, c2), len') + freq[c1] + freq[c2] == Cost(freq, len)
  {
    hide Pow2, Cost, Sum;
    var l := len[c1];
    var f', len' := Merged(freq, c1, c2), len[c1 := l - 1];
    var k := KraftTerms(freq, len, n);
    Pow2Step(n - l);
    var v := Pow2(n - (l - 1));
    assert KraftTerms(f', len', n) == k[c1 := v][c2 := 0];
    SumUpdate(k, c1, v);
    SumUpdate(k[c1 := v], c2, 0);
    MergeCost(freq, len, c1, c2);
  }

  lemma MergeCost(freq: seq<nat>, len: seq<nat>, c1: nat, c2: nat)
    requires |freq| == |len| && c1 < |freq| && c2 < |freq| && c1 != c2
    requires len[c1] == len[c2] > 0
    ensures Cost(Merged(freq, c1, c2), len[c1 := len[c1] - 1]) + freq[c1] + freq[c2] == Cost(freq, len)
  {
    var l := len[c1];
    var f', len' := Merged(freq, c1, c2), len[c1 := l - 1];
    var t := CostTerms(freq, len);
    var v := (freq[c1] + freq[c2]) * (l - 1);
    SharedParent(freq[c1], freq[c2], l);
    assert CostTerms(f', len') == t[c1 := v][c2 := 0];
    SumUpdate(t, c1, v);
    SumUpdate(t[c1 := v], c2, 0);
  }

  lemma SharedParent(a: int, b: int, l: int)
    ensures (a + b) * (l - 1) == a * l + b * l - a - b
  {}

  /** The heart of Huffman's argument. */
  lemma MergeStep(freq: seq<nat>, len: seq<nat>, n: nat, c1: nat, c2: nat) returns (len': seq<nat>)
    requires Feasible(freq, len, n) && Smallest(freq, c1, -1) && Smallest(freq, c2, c1)
    ensures Feasible(Merged(freq, c1, c2), len', n)
    ensures Cost(Merged(freq, c1, c2), len') + freq[c1] + freq[c2] <= Cost(freq, len)
  {
    hide Feasible, Cost, Merged;
    FeasibleSize(freq, len, n);
    var m1 := Longest(freq, len, -1, |freq|);
    SwapCheaper(freq, len, n, c1, m1);
    var l1 := Swapped(len, c1, m1);
    var m2 := Longest(freq, l1, c1, |freq|);
    SwapCheaper(freq, l1, n, c2, m2);
    var l2 := Swapped(l1, c2, m2);
    var l3 := l2;
    if l2[c2] < l2[c1] {
      CutBack(freq, l2, n, c1, c2);
      l3 := l2[c1 := l2[c2]];
      CostUpdate(freq, l2, c1, l2[c2]);
      CutCheaper(freq[c1], l2[c1], l2[c2]);
    }
    TwoNeedABit(freq, l3, n, c1, c2);
    MergeEqual(freq, l3, n, c1, c2);
    len' := l3[c1 := l3[c1] - 1];
  }

  lemma FeasibleSize(freq: seq<nat>, len: seq<nat>, n: nat)
    requires Feasible(freq, len, n)
    ensures |freq| == |len|
  {}

  lemma CutCheaper(f: int, a: int, b: int)
    requires f >= 0 && b <= a
    ensures f * b <= f * a
  {
    assert f * (a - b) >= 0;
  }

  /** Lengths for freq0 are never cheaper than acc plus the cost of feasible lengths for freq. */
  ghost predicate Dominates(freq0: seq<nat>, freq: seq<nat>, acc: int)
    requires |freq0| == |freq|
  {
    forall len0: seq<nat>, n: nat {:trigger Feasible(freq0, len0, n)} :: Feasible(freq0, len0, n) ==>
      Cheaper(freq, n, Cost(freq0, len0) - acc)
  }

  ghost predicate Cheaper(freq: seq<nat>, n: nat, bound: int) {
    exists len: seq<nat> :: Feasible(freq, len, n) && |freq| == |len| && Cost(freq, len) <= bound
  }

  lemma DominatesStart(freq: seq<nat>)
    ensures Dominates(freq, freq, 0)
  {}

  lemma DominatesMerge(freq0: seq<nat>, freq: seq<nat>, acc: int, c1: nat, c2: nat)
    requires |freq0| == |freq| && Dominates(freq0, freq, acc)
    requires Smallest(freq, c1, -1) && Smallest(freq, c2, c1)
    ensures Dominates(freq0, Merged(freq, c1, c2), acc + freq[c1] + freq[c2])
  {
    hide Feasible, Cost;
    forall len0: seq<nat>, n: nat | Feasible(freq0, len0, n)
      ensures |freq0| == |len0| && Cheaper(Merged(freq, c1, c2), n, Cost(freq0, len0) - (acc + freq[c1] + freq[c2]))
    {
      FeasibleSize(freq0, len0, n);
      assert Cheaper(freq, n, Cost(freq0, len0) - acc);
      var len: seq<nat> :| Feasible(freq, len, n) && |freq| == |len| && Cost(freq, len) <= Cost(freq0, len0) - acc;
      var len' := MergeStep(freq, len, n, c1, c2);
      FeasibleSize(Merged(freq, c1, c2), len', n);
    }
  }

  /** Nothing costs less than nothing. */
  lemma CostNonneg(freq: seq<nat>, len: seq<nat>)
    requires |freq| == |len|
    ensures Cost(freq, len) >= 0
  {
    SumNonneg(CostTerms(freq, len));
  }

  /** What has been paid for when the merging ends is a lower bound for every feasible assignment. */
  lemma DominatesEnd(freq0: seq<nat>, freq: seq<nat>, acc: int, len0: seq<nat>, n: nat)
    requires |freq0| == |freq| && Dominates(freq0, freq, acc) && Feasible(freq0, len0, n)
    ensures |freq0| == |len0| && acc <= Cost(freq0, len0)
  {
    hide Cost, Feasible;
    FeasibleSize(freq0, len0, n);
    assert Cheaper(freq, n, Cost(freq0, len0) - acc);
    var len: seq<nat> :| Feasible(freq, len, n) && |freq| == |len| && Cost(freq, len) <= Cost(freq0, len0) - acc;
    CostNonneg(freq, len);
  }
}
