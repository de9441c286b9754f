/** The searches of the tree builder start from a fixed value: for which counts they find what they have to. */
module FrequencyLimits {
  import opened Bits
  import opened Sums
  import opened HuffmanOptimality
  import opened HuffmanForest

  const FREQ_LIMIT: nat := 1000000000  // where the searches for the smallest frequency start

  /** Of every two heads to be merged, the heavier one does not exceed the limit; only the last head may. */
  ghost predicate Selectable(freq0: seq<nat>, f: Forest)
    requires ForestOk(freq0, f)
    decreases |f.trees|
  {
    HasPair(f.freq) ==>
      var c1: nat, c2: nat :| Smallest(f.freq, c1, -1) && Smallest(f.freq, c2, c1);
      PairMergeable(freq0, f, c1, c2);
      MergeOk(freq0, f, c1, c2);
      f.freq[c2] <= FREQ_LIMIT && Selectable(freq0, MergeForest(f, c1, c2))
  }

  /** The forest in which the merging ends: the next head to be merged exceeds the limit, or there is none. */
  ghost function StoppedForest(freq0: seq<nat>, f: Forest): Forest
    requires ForestOk(freq0, f)
    decreases |f.trees|
  {
    if HasPair(f.freq) then
      var c1: nat, c2: nat :| Smallest(f.freq, c1, -1) && Smallest(f.freq, c2, c1);
      PairMergeable(freq0, f, c1, c2);
      MergeOk(freq0, f, c1, c2);
      if f.freq[c2] <= FREQ_LIMIT then StoppedForest(freq0, MergeForest(f, c1, c2)) else f
    else f
  }

  lemma StoppedStep(freq0: seq<nat>, f: Forest, c1: nat, c2: nat)
    requires ForestOk(freq0, f) && Smallest(f.freq, c1, -1) && Smallest(f.freq, c2, c1)
    ensures Mergeable(f, c1, c2) && Last(Leaves(f.trees[c1])) < NSYM && ForestOk(freq0, MergeForest(f, c1, c2))
    ensures Sized(f) && c2 < NSYM
    ensures StoppedForest(freq0, f)
      == if f.freq[c2] <= FREQ_LIMIT then StoppedForest(freq0, MergeForest(f, c1, c2)) else f
  {
    hide ForestOk, Leaves, MergeForest, Smallest;
    ForestSized(freq0, f);
    PairMergeable(freq0, f, c1, c2);
    MergeOk(freq0, f, c1, c2);
    assert HasPair(f.freq);
    forall d1: nat, d2: nat | Smallest(f.freq, d1, -1) && Smallest(f.freq, d2, d1) ensures d1 == c1 && d2 == c2 {
      SmallestUnique(f.freq, c1, d1, -1);
      SmallestUnique(f.freq, c2, d2, c1);
    }
  }

  lemma StoppedAlone(freq0: seq<nat>, f: Forest)
    requires ForestOk(freq0, f) && !HasPair(f.freq)
    ensures StoppedForest(freq0, f) == f
  {
    hide ForestOk;
  }

  lemma SelectableStep(freq0: seq<nat>, f: Forest, c1: nat, c2: nat)
    requires ForestOk(freq0, f) && Smallest(f.freq, c1, -1) && Smallest(f.freq, c2, c1)
    ensures Mergeable(f, c1, c2) && Last(Leaves(f.trees[c1])) < NSYM && ForestOk(freq0, MergeForest(f, c1, c2))
    ensures Sized(f) && c2 < NSYM
    ensures Selectable(freq0, f) <==> f.freq[c2] <= FREQ_LIMIT && Selectable(freq0, MergeForest(f, c1, c2))
  {
    hide ForestOk, Leaves, MergeForest, Smallest;
    ForestSized(freq0, f);
    PairMergeable(freq0, f, c1, c2);
    MergeOk(freq0, f, c1, c2);
    assert HasPair(f.freq);
    forall d1: nat, d2: nat | Smallest(f.freq, d1, -1) && Smallest(f.freq, d2, d1) ensures d1 == c1 && d2 == c2 {
      SmallestUnique(f.freq, c1, d1, -1);
      SmallestUnique(f.freq, c2, d2, c1);
    }
  }

  lemma SelectableAlone(freq0: seq<nat>, f: Forest)
    requires ForestOk(freq0, f) && !HasPair(f.freq)
    ensures Selectable(freq0, f)
  {
    hide ForestOk;
  }

  /** A total within the limit is enough. */
  lemma {:induction false} TotalWithinLimit(freq0: seq<nat>, f: Forest)
    requires ForestOk(freq0, f) && Sum(freq0) <= FREQ_LIMIT
    ensures Selectable(freq0, f)
    decreases |f.trees|
  {
    hide ForestOk, Sum, MergeForest, Leaves, Smallest, Selectable, HasPair;
    if HasPair(f.freq) {
      var c1: nat, c2: nat := SomePair(f.freq);
      SelectableStep(freq0, f, c1, c2);
      MergeOk(freq0, f, c1, c2);
      HeadBelowTotal(freq0, f, c2);
      TotalWithinLimit(freq0, MergeForest(f, c1, c2));
    } else {
      SelectableAlone(freq0, f);
    }
  }

  lemma SomePair(freq: seq<nat>) returns (c1: nat, c2: nat)
    requires HasPair(freq)
    ensures Smallest(freq, c1, -1) && Smallest(freq, c2, c1)
  {
    hide Smallest;
    c1, c2 :| Smallest(freq, c1, -1) && Smallest(freq, c2, c1);
  }

  lemma HeadBelowTotal(freq0: seq<nat>, f: Forest, h: nat)
    requires ForestOk(freq0, f) && h < NSYM
    ensures Sized(f) && f.freq[h] <= Sum(freq0)
  {
    hide Sum, TreeOk;
    SumNonneg(f.freq);
  }

  /** A symbol that occurs more often than the limit beside others is never selected. */
  lemma {:induction false} TooFrequent(freq0: seq<nat>, f: Forest, heavy: nat, other: nat)
    requires ForestOk(freq0, f) && Sized(f) && heavy < NSYM && other < NSYM && heavy != other
    requires f.freq[heavy] > FREQ_LIMIT && f.freq[other] > 0
    ensures !Selectable(freq0, f)
    decreases |f.trees|
  {
    hide ForestOk, MergeForest, Leaves, Selectable, HasPair;
    if !HasPair(f.freq) { NoPairAlone(f.freq, heavy, other); }
    var c1: nat, c2: nat := SomePair(f.freq);
    SelectableStep(freq0, f, c1, c2);
    if f.freq[c2] <= FREQ_LIMIT {
      MergeOk(freq0, f, c1, c2);
      ForestSized(freq0, MergeForest(f, c1, c2));
      MergedFreq(f, c1, c2);
      TooFrequent(freq0, MergeForest(f, c1, c2), heavy, c1);
    }
  }

  lemma MergedFreq(f: Forest, c1: nat, c2: nat)
    requires Sized(f) && Mergeable(f, c1, c2) && Last(Leaves(f.trees[c1])) < NSYM
    ensures MergeForest(f, c1, c2).freq == Merged(f.freq, c1, c2)
    ensures Merged(f.freq, c1, c2) == f.freq[c1 := f.freq[c1] + f.freq[c2]][c2 := 0]
  {
    MergedIs(f.freq, c1, c2);
  }

  /** Two heads together account for a Kraft sum of two: their lengths belong to no prefix code. */
  lemma TwoHeads(freq0: seq<nat>, f: Forest, c: nat, d: nat, n: nat)
    requires ForestOk(freq0, f) && Mergeable(f, c, d) && Sized(f)
    requires forall i :: 0 <= i < NSYM && freq0[i] > 0 ==> f.codesize[i] <= n
    ensures Kraft(freq0, f.codesize, n) >= 2 * Pow2(n)
  {
    hide ForestOk, Pow2, Sum, LeafSet, Leaves;
    HeightBelow(freq0, f, c, n);
    HeightBelow(freq0, f, d, n);
    HeadKraft(freq0, f, c, n);
    HeadKraft(freq0, f, d, n);
    OwnersDiffer(freq0, f, c, d);
    ForestSized(freq0, f);
    var g, a, b := KraftTerms(freq0, f.codesize, n), LeafSet(f.trees[c]), LeafSet(f.trees[d]);
    SumOverUnion(g, a, b);
    SumOverPart(g, a + b);
  }

  lemma HeightBelow(freq0: seq<nat>, f: Forest, h: nat, n: nat)
    requires ForestOk(freq0, f) && h in f.trees && Sized(f)
    requires forall i :: 0 <= i < NSYM && freq0[i] > 0 ==> f.codesize[i] <= n
    ensures Height(f.trees[h]) <= n
  {
    hide Leaves, Sum, Chained, Weight;
    assert TreeOk(freq0, f, h, f.trees[h]);
    var s := HeightAttained(f.trees[h]);
  }

  lemma SumOverPart(g: seq<int>, m: set<nat>)
    requires forall i :: 0 <= i < |g| ==> g[i] >= 0
    ensures SumOver(g, m) <= Sum(g)
  {
    hide Sum;
    var rest := seq(|g|, i requires 0 <= i < |g| => if i in m then 0 else g[i]);
    SumAdd(Masked(g, m), rest, g);
    SumNonneg(rest);
  }
}
