/** What the tree builder leaves behind when its searches stop early: complete codes for some of the symbols. */
module StoppedForests {
  import opened Bits
  import opened Sums
  import opened HuffmanOptimality
  import opened HuffmanForest
  import opened FrequencyLimits
  import opened PseudoSymbols

  /** The heads that are left all exceed the limit but the first. */
  ghost predicate AtLimit(f: Forest) {
    forall c1: nat, c2: nat :: Smallest(f.freq, c1, -1) && Smallest(f.freq, c2, c1) && c2 < |f.freq| ==>
      f.freq[c2] > FREQ_LIMIT
  }

  /** The merging is stopped exactly by the limit, and 256 is as deep as any symbol then. */
  lemma {:induction false} StoppedFacts(freq0: seq<nat>, f: Forest)
    requires ForestOk(freq0, f) && Growing(freq0, f) && freq0[PSEUDO] > 0 && PseudoLeads(freq0, f)
    ensures var last := StoppedForest(freq0, f);
      && ForestOk(freq0, last) && PseudoLeads(freq0, last) && AtLimit(last)
      && (Selectable(freq0, f) <==> !HasPair(last.freq))
      && (Selectable(freq0, f) ==> last == FinalForest(freq0, f))
    decreases |f.trees|
  {
    hide ForestOk, Growing, PseudoLeads, MergeForest, Leaves, Smallest, FinalForest, StoppedForest, Selectable,
      AtLimit;
    if HasPair(f.freq) {
      var c1, c2 := SomePair(f.freq);
      StoppedStep(freq0, f, c1, c2);
      SelectableStep(freq0, f, c1, c2);
      FinalMerge(freq0, f, c1, c2);
      if f.freq[c2] <= FREQ_LIMIT {
        MergeOk(freq0, f, c1, c2);
        MergeGrowing(freq0, f, c1, c2);
        MergeLeads(freq0, f, c1, c2);
        StoppedFacts(freq0, MergeForest(f, c1, c2));
      } else {
        LimitReached(f, c1, c2);
      }
    } else {
      StoppedAlone(freq0, f);
      SelectableAlone(freq0, f);
      FinalIs(freq0, f);
      NoLimit(f);
    }
  }

  lemma LimitReached(f: Forest, c1: nat, c2: nat)
    requires Smallest(f.freq, c1, -1) && Smallest(f.freq, c2, c1) && c2 < |f.freq| && f.freq[c2] > FREQ_LIMIT
    ensures AtLimit(f)
  {
    hide Smallest;
    forall d1: nat, d2: nat | Smallest(f.freq, d1, -1) && Smallest(f.freq, d2, d1) ensures d1 == c1 && d2 == c2 {
      SmallestUnique(f.freq, c1, d1, -1);
      SmallestUnique(f.freq, c2, d2, c1);
    }
  }

  lemma NoLimit(f: Forest)
    requires !HasPair(f.freq)
    ensures AtLimit(f)
  {
    hide Smallest;
  }

  // ---- the Kraft sum of the code lengths ----

  /** 2^(32 - length) for every symbol with a code. */
  function LengthTerms(codesize: seq<nat>): (r: seq<int>)
    ensures |r| == |codesize|
  {
    seq(|codesize|, i requires 0 <= i < |codesize| => if 0 < codesize[i] <= 32 then Pow2(32 - codesize[i]) else 0)
  }

  ghost predicate Short(f: Forest) {
    forall s :: 0 <= s < |f.codesize| ==> f.codesize[s] <= 32
  }

  /** A head accounts for one if it has been merged, else for nothing. */
  lemma OneHead(freq0: seq<nat>, f: Forest, h: nat)
    requires ForestOk(freq0, f) && h in f.trees && Short(f)
    ensures SumOver(LengthTerms(f.codesize), LeafSet(f.trees[h])) == if f.trees[h].Node? then Pow2(32) else 0
  {
    hide Pow2, Sum, Leaves, Chained, Weight, Depth, Height, Proper;
    var t, g := f.trees[h], LengthTerms(f.codesize);
    assert TreeOk(freq0, f, h, t);
    if t.Node? {
      HeightShort(freq0, f, h);
      HeadKraft(freq0, f, h, 32);
      forall s | s in LeafSet(t) ensures f.codesize[s] > 0 { NodeDepth(t, s); }
      assert Masked(g, LeafSet(t)) == Masked(KraftTerms(freq0, f.codesize, 32), LeafSet(t));
    } else {
      LeafDepth(t);
      SumZero(Masked(g, LeafSet(t)));
    }
  }

  lemma HeightShort(freq0: seq<nat>, f: Forest, h: nat)
    requires ForestOk(freq0, f) && h in f.trees && Short(f)
    ensures Height(f.trees[h]) <= 32
  {
    hide ForestOk;
    ForestSized(freq0, f);
    HeightBelow(freq0, f, h, 32);
  }

  lemma NodeDepth(t: Tree, s: nat)
    requires t.Node?
    ensures Depth(t, s) > 0
  {}

  lemma LeafDepth(t: Tree)
    ensures t.Leaf? ==> LeafSet(t) == {t.sym} && Depth(t, t.sym) == 0 && Leaves(t)[0] == t.sym && Height(t) == 0
  {}

  /** The symbols of some heads. */
  ghost function Owned(freq0: seq<nat>, f: Forest, m: set<nat>): set<nat>
    requires ForestOk(freq0, f)
  {
    set s: nat | s < NSYM && freq0[s] > 0 && f.owner[s] in m
  }

  lemma OwnedOne(freq0: seq<nat>, f: Forest, m: set<nat>, h: nat)
    requires ForestOk(freq0, f) && h in f.trees && h !in m
    ensures LeafSet(f.trees[h]) !! Owned(freq0, f, m)
    ensures Owned(freq0, f, m + {h}) == LeafSet(f.trees[h]) + Owned(freq0, f, m)
  {
    hide Leaves, Sum, Chained, Weight, Depth, Proper;
    assert TreeOk(freq0, f, h, f.trees[h]);
  }

  /** Some heads account for as many as have been merged. */
  lemma {:induction false} HeadsSum(freq0: seq<nat>, f: Forest, m: set<nat>) returns (k: nat)
    requires ForestOk(freq0, f) && Short(f) && forall h :: h in m ==> h in f.trees
    ensures SumOver(LengthTerms(f.codesize), Owned(freq0, f, m)) == k * Pow2(32) && k <= |m|
    ensures (k == |m| <==> forall h :: h in m ==> f.trees[h].Node?)
      && (k == 0 <==> forall h :: h in m ==> f.trees[h].Leaf?)
    decreases |m|
  {
    hide ForestOk, Pow2, Sum, LengthTerms, Owned, LeafSet, Short, SumOver;
    if m == {} {
      NoneOwned(freq0, f);
      k := 0;
    } else {
      var h :| h in m;
      var rest := m - {h};
      assert m == rest + {h};
      var k' := HeadsSum(freq0, f, rest);
      OneHead(freq0, f, h);
      OwnedOne(freq0, f, rest, h);
      SumOverUnion(LengthTerms(f.codesize), LeafSet(f.trees[h]), Owned(freq0, f, rest));
      k := k' + if f.trees[h].Node? then 1 else 0;
      Distribute(k', 1, Pow2(32));
    }
  }

  lemma NoneOwned(freq0: seq<nat>, f: Forest)
    requires ForestOk(freq0, f)
    ensures SumOver(LengthTerms(f.codesize), Owned(freq0, f, {})) == 0
  {
    hide Sum, Pow2, TreeOk, LengthTerms;
    SumZero(Masked(LengthTerms(f.codesize), Owned(freq0, f, {})));
  }

  lemma AllOwned(freq0: seq<nat>, f: Forest)
    requires ForestOk(freq0, f)
    ensures SumOver(LengthTerms(f.codesize), Owned(freq0, f, f.trees.Keys)) == Sum(LengthTerms(f.codesize))
  {
    hide Sum, Pow2, TreeOk;
    assert Masked(LengthTerms(f.codesize), Owned(freq0, f, f.trees.Keys)) == LengthTerms(f.codesize);
  }

  /** 256 has a code as soon as anything has been merged. */
  lemma PseudoHeight(freq0: seq<nat>, f: Forest)
    requires ForestOk(freq0, f) && freq0[PSEUDO] > 0 && PseudoLeads(freq0, f)
    ensures f.codesize[PSEUDO] == 0 <==> forall h :: h in f.trees ==> f.trees[h].Leaf?
    ensures f.owner[PSEUDO] in f.trees
  {
    hide Leaves, Sum, Chained, Weight, Depth, LeafSet, Proper, MaxChild;
    var r := f.owner[PSEUDO];
    assert TreeOk(freq0, f, r, f.trees[r]);
    forall h | h in f.trees ensures h < NSYM && (f.trees[h].Leaf? <==> Height(f.trees[h]) == 0) {
      WeightBound(f.trees[h], freq0);
    }
  }

  /** The Kraft sum of the code lengths is a whole number: none before the first merge; one if a single tree is left, or
      if all others have never been merged, so that their symbols have no code. */
  lemma StoppedKraft(freq0: seq<nat>, f: Forest) returns (k: nat)
    requires ForestOk(freq0, f) && freq0[PSEUDO] > 0 && PseudoLeads(freq0, f) && Short(f)
    ensures Sum(LengthTerms(f.codesize)) == k * Pow2(32) && (k == 0 <==> f.codesize[PSEUDO] == 0)
    ensures !HasPair(f.freq) ==> k <= 1
    ensures HasPair(f.freq) && k == 1 ==> exists s :: 0 <= s < 256 && freq0[s] > 0 && f.codesize[s] == 0
  {
    hide ForestOk, Pow2, Sum, LengthTerms, Owned, LeafSet, Short, SumOver, PseudoLeads;
    k := HeadsSum(freq0, f, f.trees.Keys);
    AllOwned(freq0, f);
    PseudoHeight(freq0, f);
    if HasPair(f.freq) {
      TwoKeys(freq0, f);
      if k == 1 {
        var h :| h in f.trees && f.trees[h].Leaf?;
        LoneHead(freq0, f, h);
      }
    } else {
      OneKey(freq0, f);
    }
  }

  lemma LoneHead(freq0: seq<nat>, f: Forest, h: nat)
    requires ForestOk(freq0, f) && h in f.trees && f.trees[h].Leaf?
    ensures h < NSYM && freq0[h] > 0 && f.codesize[h] == 0
  {
    hide Sum, Chained, Weight, Proper;
    assert TreeOk(freq0, f, h, f.trees[h]);
    LeafDepth(f.trees[h]);
  }

  lemma TwoKeys(freq0: seq<nat>, f: Forest)
    requires ForestOk(freq0, f) && HasPair(f.freq)
    ensures |f.trees.Keys| >= 2
  {
    hide ForestOk, Smallest;
    var c1, c2 := SomePair(f.freq);
    PairMergeable(freq0, f, c1, c2);
    SubsetSize({c1, c2}, f.trees.Keys);
  }

  lemma OneKey(freq0: seq<nat>, f: Forest)
    requires ForestOk(freq0, f) && !HasPair(f.freq)
    ensures |f.trees.Keys| <= 1
  {
    hide TreeOk, HasPair, Sum;
    if |f.trees.Keys| > 1 {
      var h :| h in f.trees;
      var rest := f.trees.Keys - {h};
      assert f.trees.Keys == rest + {h};
      var k :| k in rest;
      NoPairAlone(f.freq, h, k);
    }
  }

  // ---- the code lengths for given counts ----

  /** The code lengths that the builder reaches. */
  ghost function StoppedSizes(freq0: seq<nat>): (r: seq<nat>)
    requires |freq0| == NSYM
    ensures |r| == NSYM
  {
    StartOk(freq0);
    var f := StoppedForest(freq0, StartForest(freq0));
    if |f.codesize| == NSYM then f.codesize else seq(NSYM, i => 0)
  }

  lemma StoppedState(freq0: seq<nat>) returns (f: Forest)
    requires |freq0| == NSYM && freq0[PSEUDO] == 1
    ensures ForestOk(freq0, StartForest(freq0)) && f == StoppedForest(freq0, StartForest(freq0))
    ensures ForestOk(freq0, f) && Sized(f) && PseudoLeads(freq0, f) && AtLimit(f) && StoppedSizes(freq0) == f.codesize
    ensures Selectable(freq0, StartForest(freq0)) <==> !HasPair(f.freq)
    ensures Selectable(freq0, StartForest(freq0)) ==> f == FinalForest(freq0, StartForest(freq0))
  {
    hide ForestOk, PseudoLeads, AtLimit, Selectable, FinalForest, StoppedForest, Growing, StartForest;
    StartLeads(freq0);
    StartGrowing(freq0);
    f := StoppedForest(freq0, StartForest(freq0));
    StoppedFacts(freq0, StartForest(freq0));
    ForestSized(freq0, f);
  }

  /** Only symbols that occur have codes, and none has if 256 has none. */
  lemma SizedSymbols(freq0: seq<nat>)
    requires |freq0| == NSYM && freq0[PSEUDO] == 1
    ensures forall s :: 0 <= s < NSYM && StoppedSizes(freq0)[s] > 0 ==> freq0[s] > 0 && StoppedSizes(freq0)[PSEUDO] > 0
  {
    hide PseudoLeads, AtLimit, StoppedForest, StartForest, HasPair, StoppedSizes, Selectable, FinalForest, ForestOk;
    var f := StoppedState(freq0);
    PseudoHeight(freq0, f);
    forall s | 0 <= s < NSYM && f.codesize[s] > 0 ensures freq0[s] > 0 && f.codesize[PSEUDO] > 0 {
      SymbolHead(freq0, f, s);
    }
  }

  lemma SymbolHead(freq0: seq<nat>, f: Forest, s: nat)
    requires ForestOk(freq0, f) && Sized(f) && s < NSYM && f.codesize[s] > 0
    ensures freq0[s] > 0 && f.owner[s] in f.trees && f.trees[f.owner[s]].Node?
  {
    hide Sum, Chained, Weight, Proper, Leaves;
    var h := f.owner[s];
    assert TreeOk(freq0, f, h, f.trees[h]);
    LeafDepth(f.trees[h]);
  }

  /** Their Kraft sum is a whole number. */
  lemma SizesKraft(freq0: seq<nat>) returns (k: nat)
    requires |freq0| == NSYM && freq0[PSEUDO] == 1 && forall s :: 0 <= s < NSYM ==> StoppedSizes(freq0)[s] <= 32
    ensures Sum(LengthTerms(StoppedSizes(freq0))) == k * Pow2(32) && (k == 0 <==> StoppedSizes(freq0)[PSEUDO] == 0)
    ensures ForestOk(freq0, StartForest(freq0))
    ensures Selectable(freq0, StartForest(freq0)) ==> k <= 1
    ensures !Selectable(freq0, StartForest(freq0)) && k == 1 ==>
      exists s :: 0 <= s < 256 && freq0[s] > 0 && StoppedSizes(freq0)[s] == 0
  {
    hide ForestOk, PseudoLeads, AtLimit, Selectable, FinalForest, StoppedForest, StartForest, HasPair, StoppedSizes,
      Sum, Pow2;
    var f := StoppedState(freq0);
    k := StoppedKraft(freq0, f);
  }

  /** A code length, once given, only grows. */
  lemma {:induction false} SizesGrow(freq0: seq<nat>, f: Forest, s: nat)
    requires ForestOk(freq0, f) && Sized(f) && s < NSYM
    ensures var last := StoppedForest(freq0, f); |last.codesize| == NSYM && last.codesize[s] >= f.codesize[s]
    decreases |f.trees|
  {
    hide ForestOk, MergeForest, Leaves, LeafSet, Smallest, StoppedForest, HasPair;
    if HasPair(f.freq) {
      var c1, c2 := SomePair(f.freq);
      StoppedStep(freq0, f, c1, c2);
      if f.freq[c2] <= FREQ_LIMIT {
        MergeOk(freq0, f, c1, c2);
        ForestSized(freq0, MergeForest(f, c1, c2));
        MergeSizes(f, c1, c2, s);
        SizesGrow(freq0, MergeForest(f, c1, c2), s);
      }
    } else {
      StoppedAlone(freq0, f);
    }
  }

  lemma MergeSizes(f: Forest, c1: nat, c2: nat, s: nat)
    requires Sized(f) && Mergeable(f, c1, c2) && Last(Leaves(f.trees[c1])) < NSYM && s < NSYM
    ensures Sized(MergeForest(f, c1, c2))
    ensures MergeForest(f, c1, c2).codesize[s] >= f.codesize[s]
    ensures s in LeafSet(f.trees[c1]) ==> MergeForest(f, c1, c2).codesize[s] > f.codesize[s]
  {
    hide Leaves, LeafSet;
  }

  /** Nothing is merged if and only if every symbol but 256 exceeds the limit. */
  lemma NothingMerged(freq0: seq<nat>)
    requires |freq0| == NSYM && freq0[PSEUDO] == 1
    ensures StoppedSizes(freq0)[PSEUDO] == 0 <==> forall s :: 0 <= s < 256 && freq0[s] > 0 ==> freq0[s] > 1000000000
  {
    hide ForestOk, PseudoLeads, AtLimit, Selectable, FinalForest, StoppedForest, HasPair, Smallest, MergeForest,
      Leaves;
    var start := StartForest(freq0);
    StartOk(freq0);
    ForestSized(freq0, start);
    StartSizes(freq0);
    if HasPair(freq0) {
      var c1, c2 := SomePair(freq0);
      PseudoFirst(freq0, c1, c2);
      StoppedStep(freq0, start, c1, c2);
      if freq0[c2] <= FREQ_LIMIT {
        MergeOk(freq0, start, c1, c2);
        ForestSized(freq0, MergeForest(start, c1, c2));
        LoneLeaf(PSEUDO, freq0);
        MergeSizes(start, c1, c2, PSEUDO);
        SizesGrow(freq0, MergeForest(start, c1, c2), PSEUDO);
      }
    } else {
      StoppedAlone(freq0, start);
      forall s | 0 <= s < 256 ensures freq0[s] == 0 {
        if freq0[s] > 0 { NoPairAlone(freq0, PSEUDO, s); }
      }
    }
  }

  lemma StartSizes(freq0: seq<nat>)
    requires |freq0| == NSYM && freq0[PSEUDO] == 1
    ensures var f := StartForest(freq0);
      f.freq == freq0 && f.codesize == seq(NSYM, i => 0) && f.codesize[PSEUDO] == 0
      && PSEUDO in f.trees && f.trees[PSEUDO] == Leaf(PSEUDO)
  {}

  /** 256 is merged first. */
  lemma PseudoFirst(freq0: seq<nat>, c1: nat, c2: nat)
    requires |freq0| == NSYM && freq0[PSEUDO] == 1 && Smallest(freq0, c1, -1) && Smallest(freq0, c2, c1)
    ensures c1 == PSEUDO && c2 < 256 && freq0[c2] > 0
    ensures freq0[c2] > FREQ_LIMIT <==> forall s :: 0 <= s < 256 && freq0[s] > 0 ==> freq0[s] > FREQ_LIMIT
  {}
}
