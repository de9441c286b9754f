/** The pseudo-symbol 256, which occurs once and wins all ties, ends up with a longest code, which can be given up. */
module PseudoSymbols {
  import opened Sums
  import opened HuffmanOptimality
  import opened HuffmanForest

  const PSEUDO: nat := 256

  /** Head h is chosen for merging after head r. */
  ghost predicate Later(freq: seq<nat>, h: nat, r: nat)
    requires h < |freq| && r < |freq|
  {
    freq[h] > freq[r] || (freq[h] == freq[r] && h < r)
  }

  /** Tree t of head r: nothing lies deeper than 256, and it will be merged again before any other tree as high. */
  ghost predicate Leading(freq0: seq<nat>, f: Forest, r: nat, t: Tree) {
    && r in f.trees && f.trees[r] == t && Sized(f)
    && Depth(t, PSEUDO) == Height(t)
    && (forall h: nat :: h in f.trees && h < NSYM && h != r ==>
         Height(f.trees[h]) <= Height(t) && (Height(f.trees[h]) == Height(t) ==> r < NSYM && Later(f.freq, h, r)))
    && (Weight(t, freq0) == 2 * MaxChild(t, freq0) ==>
         forall h: nat :: h in f.trees && h < NSYM && h != r && f.freq[h] == MaxChild(t, freq0) ==> h < r)
  }

  /** The tree that holds 256 is leading. */
  ghost predicate PseudoLeads(freq0: seq<nat>, f: Forest)
    requires ForestOk(freq0, f) && freq0[PSEUDO] > 0
  {
    Leading(freq0, f, f.owner[PSEUDO], f.trees[f.owner[PSEUDO]])
  }

  lemma StartLeads(freq0: seq<nat>)
    requires |freq0| == NSYM && freq0[PSEUDO] == 1
    ensures ForestOk(freq0, StartForest(freq0)) && PseudoLeads(freq0, StartForest(freq0))
  {
    hide ForestOk, Sum;
    StartOk(freq0);
  }

  /** A tree weighs at most twice its heavier branch. */
  lemma WeightBound(t: Tree, freq: seq<nat>)
    ensures t.Node? ==> Weight(t, freq) <= 2 * MaxChild(t, freq)
    ensures t.Leaf? <==> Height(t) == 0
  {}

  lemma JoinedTree(t1: Tree, t2: Tree, freq: seq<nat>)
    ensures Height(Node(t1, t2)) == 1 + if Height(t1) >= Height(t2) then Height(t1) else Height(t2)
    ensures PSEUDO in LeafSet(t1) ==> Depth(Node(t1, t2), PSEUDO) == 1 + Depth(t1, PSEUDO)
    ensures PSEUDO !in LeafSet(t1) ==> Depth(Node(t1, t2), PSEUDO) == 1 + Depth(t2, PSEUDO)
    ensures Weight(Node(t1, t2), freq) == Weight(t1, freq) + Weight(t2, freq)
  {
    hide LeafSet;
  }

  /** The leading tree is one of the two merged. */
  lemma LeaderMerged(freq0: seq<nat>, f: Forest, c1: nat, c2: nat, r: nat)
    requires ForestOk(freq0, f) && r in f.trees && Leading(freq0, f, r, f.trees[r]) && (r == c1 || r == c2)
    requires Mergeable(f, c1, c2) && Last(Leaves(f.trees[c1])) < NSYM
    requires Smallest(f.freq, c1, -1) && Smallest(f.freq, c2, c1)
    requires PSEUDO in LeafSet(f.trees[r]) && (r == c2 ==> PSEUDO !in LeafSet(f.trees[c1]))
    ensures Leading(freq0, MergeForest(f, c1, c2), c1, Node(f.trees[c1], f.trees[c2]))
  {
    hide ForestOk, Leaves, LeafSet, Height, Depth, Weight, MaxChild, Incremented;
    var t1, t2 := f.trees[c1], f.trees[c2];
    JoinedTree(t1, t2, freq0);
    MergedMaxChild(t1, t2, freq0);
    HeadWeight(freq0, f, c1);
    HeadWeight(freq0, f, c2);
    MergedIs(f.freq, c1, c2);
  }

  /** Two other trees are merged: both stood before the leading tree, so they were lower. */
  lemma OthersMerged(freq0: seq<nat>, f: Forest, c1: nat, c2: nat, r: nat)
    requires ForestOk(freq0, f) && Growing(freq0, f) && r in f.trees && Leading(freq0, f, r, f.trees[r])
    requires r != c1 && r != c2 && r < NSYM
    requires Mergeable(f, c1, c2) && Last(Leaves(f.trees[c1])) < NSYM
    requires Smallest(f.freq, c1, -1) && Smallest(f.freq, c2, c1) && f.freq[r] > 0
    ensures Leading(freq0, MergeForest(f, c1, c2), r, f.trees[r])
  {
    hide ForestOk, Leaves, LeafSet, Height, Depth, Weight, MaxChild, Incremented, FibHeavy;
    var t1, t2, t := f.trees[c1], f.trees[c2], f.trees[r];
    JoinedTree(t1, t2, freq0);
    HeadWeight(freq0, f, r);
    WeightBound(t, freq0);
    MergedIs(f.freq, c1, c2);
    assert !Later(f.freq, c1, r) && !Later(f.freq, c2, r);
    assert f.freq[c1] >= MaxChild(t, freq0) && f.freq[c2] >= MaxChild(t, freq0);
  }

  lemma MergeLeads(freq0: seq<nat>, f: Forest, c1: nat, c2: nat)
    requires ForestOk(freq0, f) && Growing(freq0, f) && freq0[PSEUDO] > 0 && PseudoLeads(freq0, f)
    requires Smallest(f.freq, c1, -1) && Smallest(f.freq, c2, c1)
    ensures Mergeable(f, c1, c2) && Last(Leaves(f.trees[c1])) < NSYM && ForestOk(freq0, MergeForest(f, c1, c2))
    ensures PseudoLeads(freq0, MergeForest(f, c1, c2))
  {
    hide Leaves, LeafSet, Height, Depth, Weight, MaxChild, Incremented, FibHeavy, Sum, Smallest, Leading, Growing,
      TreeOk, Merged;
    PairMergeable(freq0, f, c1, c2);
    MergeOk(freq0, f, c1, c2);
    OwnersDiffer(freq0, f, c1, c2);
    var r := f.owner[PSEUDO];
    OwnerUnique(freq0, f, c1);
    OwnerUnique(freq0, f, c2);
    if r == c1 || r == c2 {
      LeaderMerged(freq0, f, c1, c2, r);
    } else {
      HeadIs(freq0, f, r);
      OthersMerged(freq0, f, c1, c2, r);
    }
  }

  lemma HeadIs(freq0: seq<nat>, f: Forest, h: nat)
    requires ForestOk(freq0, f) && h in f.trees
    ensures h < NSYM && f.freq[h] > 0
  {
    hide TreeOk, Sum;
  }

  lemma OwnerUnique(freq0: seq<nat>, f: Forest, h: nat)
    requires ForestOk(freq0, f) && h in f.trees && freq0[PSEUDO] > 0
    ensures PSEUDO in LeafSet(f.trees[h]) <==> f.owner[PSEUDO] == h
  {
    hide LeafSet, Leaves, Sum;
    assert TreeOk(freq0, f, h, f.trees[h]);
  }

  /** When the merging ends, no code is longer than that of 256. */
  lemma {:induction false} PseudoDeepest(freq0: seq<nat>, f: Forest, s: nat)
    requires ForestOk(freq0, f) && Growing(freq0, f) && freq0[PSEUDO] > 0 && PseudoLeads(freq0, f) && s < NSYM
    ensures var last := FinalForest(freq0, f);
      Sized(last) && last.codesize[s] <= last.codesize[PSEUDO]
    decreases |f.trees|
  {
    hide ForestOk, Growing, PseudoLeads, MergeForest, Leaves, Smallest, FinalForest;
    ForestSized(freq0, f);
    if HasPair(f.freq) {
      var c1: nat, c2: nat :| Smallest(f.freq, c1, -1) && Smallest(f.freq, c2, c1);
      FinalMerge(freq0, f, c1, c2);
      MergeOk(freq0, f, c1, c2);
      MergeGrowing(freq0, f, c1, c2);
      MergeLeads(freq0, f, c1, c2);
      PseudoDeepest(freq0, MergeForest(f, c1, c2), s);
    } else {
      FinalIs(freq0, f);
      DeepestInOne(freq0, f, s);
    }
  }

  lemma FinalIs(freq0: seq<nat>, f: Forest)
    requires ForestOk(freq0, f) && !HasPair(f.freq)
    ensures FinalForest(freq0, f) == f
  {
    hide ForestOk;
  }

  lemma DeepestInOne(freq0: seq<nat>, f: Forest, s: nat)
    requires ForestOk(freq0, f) && freq0[PSEUDO] > 0 && PseudoLeads(freq0, f) && s < NSYM && !HasPair(f.freq)
    ensures Sized(f) && f.codesize[s] <= f.codesize[PSEUDO]
  {
    hide LeafSet, Leaves, Height, Depth, Weight, MaxChild, Sum, HasPair, Chained, Proper;
    var r := f.owner[PSEUDO];
    var t := f.trees[r];
    assert TreeOk(freq0, f, r, t);
    if freq0[s] > 0 {
      var h := f.owner[s];
      assert TreeOk(freq0, f, h, f.trees[h]);
      NoPairAlone(f.freq, r, h);
      DepthBelowHeight(t, s);
    }
  }

  /** Huffman's algorithm started on counts in which 256 occurs once. */
  lemma PseudoLongest(freq0: seq<nat>, s: nat)
    requires |freq0| == NSYM && freq0[PSEUDO] == 1 && s < NSYM
    ensures ForestOk(freq0, StartForest(freq0))
    ensures var last := FinalForest(freq0, StartForest(freq0));
      Sized(last) && last.codesize[s] <= last.codesize[PSEUDO]
  {
    hide *;
    StartLeads(freq0);
    StartGrowing(freq0);
    PseudoDeepest(freq0, StartForest(freq0), s);
  }
}
