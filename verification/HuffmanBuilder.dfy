/** The tree builder of jpeg_gen_optimal_table: merging the two least frequent symbols until one is left. */
module HuffmanBuilder {
  import opened Bits
  import opened Sums
  import opened HuffmanOptimality
  import opened HuffmanForest
  import opened FrequencyLimits

  /** The smallest nonzero frequency other than index excl, if it does not exceed the limit; in case of ties the larger
      symbol. */
  method FindSmallest(freq: array<nat>, excl: int) returns (c: int)
    requires freq.Length == NSYM
    ensures -1 <= c < NSYM
    ensures c >= 0 ==> Smallest(freq[..], c, excl) && freq[c] <= FREQ_LIMIT
    ensures c < 0 ==> forall i :: 0 <= i < NSYM && i != excl ==> freq[i] == 0 || freq[i] > FREQ_LIMIT
  {
    c := -1;
    var v := FREQ_LIMIT;
    for i := 0 to NSYM
      invariant -1 <= c < i
      invariant c < 0 ==> v == FREQ_LIMIT && forall k :: 0 <= k < i && k != excl ==>
        freq[k] == 0 || freq[k] > FREQ_LIMIT
      invariant c >= 0 ==> freq[c] == v > 0 && c != excl && v <= FREQ_LIMIT
      invariant c >= 0 ==> forall k :: 0 <= k < i && freq[k] > 0 && k != excl ==>
        v < freq[k] || (v == freq[k] && k <= c)
    {
      if freq[i] != 0 && freq[i] <= v && i != excl {
        v := freq[i];
        c := i;
      }
    }
  }

  /** Adds one to the code size of every symbol in the branch of c; returns the end of the branch. */
  method IncrementBranch(codesize: array<nat>, others: array<int>, c: nat, ghost chain: seq<nat>) returns (last: nat)
    requires codesize.Length == NSYM && others.Length == NSYM
    requires Chained(others[..], chain) && NoRepeats(chain) && chain[0] == c
    modifies codesize
    ensures last == Last(chain)
    ensures forall s :: 0 <= s < NSYM ==> codesize[s] == old(codesize[s]) + (if s in chain then 1 else 0)
  {
    forall k | 0 <= k < |chain| ensures others[chain[k]] == if k < |chain| - 1 then chain[k + 1] else -1 {
      assert others[..][chain[k]] == others[chain[k]];
    }
    last := c;
    codesize[last] := codesize[last] + 1;
    ghost var i := 0;
    assert chain[..1] == [c];
    while others[last] >= 0
      invariant 0 <= i < |chain| && last == chain[i] < NSYM
      invariant others[last] == if i < |chain| - 1 then chain[i + 1] else -1
      invariant forall k :: 0 <= k < |chain| ==> others[chain[k]] == if k < |chain| - 1 then chain[k + 1] else -1
      invariant forall s :: 0 <= s < NSYM ==> codesize[s] == old(codesize[s]) + (if s in chain[..i + 1] then 1 else 0)
      decreases |chain| - i
    {
      last := others[last];
      i := i + 1;
      assert chain[..i + 1] == chain[..i] + [last];
      assert forall k :: 0 <= k < i ==> chain[k] != chain[i];
      assert last !in chain[..i];
      codesize[last] := codesize[last] + 1;
    }
    assert i == |chain| - 1;
    assert chain[..i + 1] == chain;
  }

  /** The three arrays are those of the forest. */
  ghost predicate Represents(freq: array<nat>, codesize: array<nat>, others: array<int>, f: Forest)
    reads freq, codesize, others
  {
    freq[..] == f.freq && codesize[..] == f.codesize && others[..] == f.others
  }

  /** Merges the trees of c1 and c2. */
  method Merge(freq: array<nat>, codesize: array<nat>, others: array<int>, c1: nat, c2: nat,
               ghost freq0: seq<nat>, ghost f: Forest)
    requires freq.Length == NSYM && codesize.Length == NSYM && others.Length == NSYM && freq != codesize
    requires ForestOk(freq0, f) && Represents(freq, codesize, others, f) && Mergeable(f, c1, c2)
    modifies freq, codesize, others
    ensures Last(Leaves(f.trees[c1])) < NSYM && Represents(freq, codesize, others, MergeForest(f, c1, c2))
  {
    hide Leaves, LeafSet, Proper, Depth, Weight, Sum;
    OwnersDiffer(freq0, f, c1, c2);
    ghost var t1, t2 := f.trees[c1], f.trees[c2];
    ghost var l1, l2 := Leaves(t1), Leaves(t2);
    assert TreeOk(freq0, f, c1, t1) && TreeOk(freq0, f, c2, t2);
    LeavesDistinct(t1);
    LeavesDistinct(t2);
    InLeaves(t1);
    InLeaves(t2);

    freq[c1] := freq[c1] + freq[c2];
    freq[c2] := 0;
    assert freq[..] == Merged(f.freq, c1, c2);

    var last := IncrementBranch(codesize, others, c1, l1);
    assert codesize[..] == Incremented(f.codesize, LeafSet(t1));
    others[last] := c2;
    assert others[..] == f.others[last := c2];
    assert Chained(others[..], l2) by {
      UntouchedChain(f.others, l2, last, c2);
    }
    var end := IncrementBranch(codesize, others, c2, l2);
    assert codesize[..] == Incremented(Incremented(f.codesize, LeafSet(t1)), LeafSet(t2));
  }

  lemma InLeaves(t: Tree)
    ensures forall s :: s in Leaves(t) <==> s in LeafSet(t)
  {
    forall s ensures s in Leaves(t) <==> s in LeafSet(t) {
      LeavesAreLeafSet(t, s);
    }
  }

  lemma UntouchedChain(others: seq<int>, chain: seq<nat>, i: nat, v: int)
    requires Chained(others, chain) && i < |others| && i !in chain
    ensures Chained(others[i := v], chain)
  {}

  /** Everything known while merging. */
  ghost predicate Building(freq0: seq<nat>, f: Forest) {
    ForestOk(freq0, f) && SoFarOptimal(freq0, f) && Growing(freq0, f)
  }

  /** What the code sizes are in the end. */
  ghost predicate HuffmanLengths(freq0: seq<nat>, codesize: seq<nat>, t: Tree) {
    && DepthsOf(freq0, codesize, t)
    && Sum(freq0) >= Fib(Height(t) + 2)
    && forall len: seq<nat>, n: nat {:trigger Feasible(freq0, len, n)} :: Feasible(freq0, len, n) ==>
         |len| == NSYM && Cost(freq0, codesize) <= Cost(freq0, len)
  }

  lemma BuildingStart(freq0: seq<nat>)
    requires |freq0| == NSYM
    ensures Building(freq0, StartForest(freq0))
  {
    hide *;
    StartOptimal(freq0);
    StartGrowing(freq0);
    BuildingIs(freq0, StartForest(freq0));
  }

  lemma BuildingIs(freq0: seq<nat>, f: Forest)
    requires ForestOk(freq0, f) && SoFarOptimal(freq0, f) && Growing(freq0, f)
    ensures Building(freq0, f)
  {
    hide ForestOk, SoFarOptimal, Growing;
  }

  lemma BuildingMerge(freq0: seq<nat>, f: Forest, c1: nat, c2: nat)
    requires Building(freq0, f)
    requires Smallest(f.freq, c1, -1) && Smallest(f.freq, c2, c1)
    ensures Mergeable(f, c1, c2) && Last(Leaves(f.trees[c1])) < NSYM && Building(freq0, MergeForest(f, c1, c2))
    ensures |MergeForest(f, c1, c2).trees| == |f.trees| - 1
    ensures Sized(MergeForest(f, c1, c2)) && MergeForest(f, c1, c2).freq[c1] > 0
  {
    hide Leaves, SoFarOptimal, Growing, TreeOk, Sum;
    assert ForestOk(freq0, f);
    MergeOk(freq0, f, c1, c2);
    MergeOptimal(freq0, f, c1, c2);
    MergeGrowing(freq0, f, c1, c2);
    BuildingIs(freq0, MergeForest(f, c1, c2));
  }

  lemma BuildingEnd(freq0: seq<nat>, f: Forest, root: nat)
    requires Building(freq0, f) && root < NSYM && f.freq[root] > 0
    requires forall i :: 0 <= i < NSYM && i != root ==> f.freq[i] == 0
    ensures root in f.trees && HuffmanLengths(freq0, f.codesize, f.trees[root])
  {
    hide TreeOk, Sum, Leaves, LeafSet, Fib, Height, Cost, Feasible, Dominates;
    FinishedTree(freq0, f, root);
    FinishedHeavy(freq0, f, root);
    forall len: seq<nat>, n: nat | Feasible(freq0, len, n)
      ensures |len| == NSYM && Cost(freq0, f.codesize) <= Cost(freq0, len)
    {
      DominatesEnd(freq0, f.freq, Cost(freq0, f.codesize), len, n);
    }
  }

  lemma BuildingForest(freq0: seq<nat>, f: Forest)
    requires Building(freq0, f)
    ensures ForestOk(freq0, f)
  {}

  /** What holds before every round. */
  ghost predicate Round(freq0: seq<nat>, f: Forest) {
    && Building(freq0, f) && ForestOk(freq0, f) && Sized(f)
    && ForestOk(freq0, StartForest(freq0))
    && FinalForest(freq0, f) == FinalForest(freq0, StartForest(freq0))
    && (Selectable(freq0, f) <==> Selectable(freq0, StartForest(freq0)))
    && StoppedForest(freq0, f) == StoppedForest(freq0, StartForest(freq0))
    && exists i :: 0 <= i < NSYM && f.freq[i] > 0
  }

  lemma RoundStart(freq0: seq<nat>)
    requires |freq0| == NSYM && freq0[256] > 0
    ensures Round(freq0, StartForest(freq0))
  {
    hide ForestOk, Building, Selectable, StoppedForest, FinalForest;
    BuildingStart(freq0);
    BuildingForest(freq0, StartForest(freq0));
  }

  lemma RoundMerge(freq0: seq<nat>, f: Forest, c1: nat, c2: nat)
    requires Round(freq0, f) && Smallest(f.freq, c1, -1) && Smallest(f.freq, c2, c1) && f.freq[c2] <= FREQ_LIMIT
    ensures Mergeable(f, c1, c2) && Last(Leaves(f.trees[c1])) < NSYM && Round(freq0, MergeForest(f, c1, c2))
    ensures |MergeForest(f, c1, c2).trees| == |f.trees| - 1
  {
    hide ForestOk, Building, MergeForest, FinalForest, Leaves, StartForest, Selectable, StoppedForest;
    SmallestRange(f.freq, c1, -1);
    BuildingMerge(freq0, f, c1, c2);
    FinalMerge(freq0, f, c1, c2);
    SelectableStep(freq0, f, c1, c2);
    StoppedStep(freq0, f, c1, c2);
  }

  lemma SmallestRange(freq: seq<nat>, c: int, excl: int)
    requires Smallest(freq, c, excl)
    ensures 0 <= c < |freq|
  {}

  lemma RoundEnd(freq0: seq<nat>, f: Forest, root: nat)
    requires Round(freq0, f) && Smallest(f.freq, root, -1)
    requires forall i :: 0 <= i < NSYM && i != root ==> f.freq[i] == 0
    ensures root in f.trees && HuffmanLengths(freq0, f.codesize, f.trees[root])
    ensures ForestOk(freq0, StartForest(freq0)) && FinalForest(freq0, StartForest(freq0)) == f
    ensures Selectable(freq0, StartForest(freq0))
  {
    hide Building, FinalForest, ForestOk, HuffmanLengths, Selectable, StoppedForest;
    BuildingEnd(freq0, f, root);
    FinalAlone(freq0, f, root);
    NoOther(f.freq, root);
    SelectableAlone(freq0, f);
  }

  lemma NoOther(freq: seq<nat>, root: nat)
    requires |freq| == NSYM && forall i :: 0 <= i < NSYM && i != root ==> freq[i] == 0
    ensures !HasPair(freq)
  {}

  lemma RoundForest(freq0: seq<nat>, f: Forest)
    requires Round(freq0, f)
    ensures ForestOk(freq0, f) && Sized(f) && ForestOk(freq0, StartForest(freq0)) && |freq0| == NSYM
  {
    hide Building, FinalForest, Selectable, StoppedForest;
  }

  /** No second head was found: c1 was the only one, or the rest exceeds the limit. */
  ghost predicate Stopped(freq: seq<nat>, c1: int) {
    && |freq| == NSYM && -1 <= c1 < NSYM
    && (c1 >= 0 ==> Smallest(freq, c1, -1))
    && forall i :: 0 <= i < NSYM && i != c1 ==> freq[i] == 0 || freq[i] > FREQ_LIMIT
  }

  /** What the code sizes are when the merging stops. */
  ghost predicate StoppedLengths(freq0: seq<nat>, codesize: seq<nat>, t: Tree) {
    && |freq0| == |codesize| == NSYM && ForestOk(freq0, StartForest(freq0))
    && codesize == StoppedForest(freq0, StartForest(freq0)).codesize
    && (Selectable(freq0, StartForest(freq0)) ==>
         HuffmanLengths(freq0, codesize, t) && codesize == FinalForest(freq0, StartForest(freq0)).codesize)
    && (!Selectable(freq0, StartForest(freq0)) ==>
         forall n: nat :: (forall i :: 0 <= i < NSYM && freq0[i] > 0 ==> codesize[i] <= n) ==>
           Kraft(freq0, codesize, n) >= 2 * Pow2(n))
  }

  lemma StoppedIs(freq0: seq<nat>, f: Forest, c1: int) returns (t: Tree)
    requires Round(freq0, f) && Stopped(f.freq, c1)
    ensures StoppedLengths(freq0, f.codesize, t)
  {
    hide Building, FinalForest, ForestOk, HuffmanLengths, Selectable, StoppedForest, Round, HasPair, Smallest, Kraft,
      StartForest;
    RoundForest(freq0, f);
    if HasPair(f.freq) {
      var d1, d2 := SomePair(f.freq);
      StoppedHeavy(f.freq, c1, d1, d2);
      SelectableStep(freq0, f, d1, d2);
      StoppedStep(freq0, f, d1, d2);
      RoundSelectable(freq0, f);
      t := f.trees[d1];
      forall n: nat | forall i :: 0 <= i < NSYM && freq0[i] > 0 ==> f.codesize[i] <= n
        ensures Kraft(freq0, f.codesize, n) >= 2 * Pow2(n)
      {
        TwoHeads(freq0, f, d1, d2, n);
      }
    } else {
      var r := NeverEmpty(freq0, f);
      forall i | 0 <= i < NSYM && i != r ensures f.freq[i] == 0 {
        if f.freq[i] > 0 { NoPairAlone(f.freq, r, i); }
      }
      AloneIsSmallest(f.freq, r);
      StoppedAlone(freq0, f);
      RoundSelectable(freq0, f);
      RoundEnd(freq0, f, r);
      t := f.trees[r];
    }
  }

  lemma RoundSelectable(freq0: seq<nat>, f: Forest)
    requires Round(freq0, f)
    ensures ForestOk(freq0, f) && ForestOk(freq0, StartForest(freq0))
    ensures Selectable(freq0, f) <==> Selectable(freq0, StartForest(freq0))
    ensures StoppedForest(freq0, f) == StoppedForest(freq0, StartForest(freq0))
  {
    hide Building, FinalForest, Selectable, StoppedForest, ForestOk;
  }

  lemma StoppedHeavy(freq: seq<nat>, c1: int, d1: nat, d2: nat)
    requires Stopped(freq, c1) && Smallest(freq, d1, -1) && Smallest(freq, d2, d1)
    ensures freq[d2] > FREQ_LIMIT
  {}

  lemma NeverEmpty(freq0: seq<nat>, f: Forest) returns (r: nat)
    requires Round(freq0, f)
    ensures Sized(f) && r < NSYM && f.freq[r] > 0
  {
    hide Building, FinalForest, Selectable, StoppedForest, ForestOk;
    r :| 0 <= r < NSYM && f.freq[r] > 0;
  }

  /** Huffman's algorithm on the arrays. freq is consumed. If no head but the last one exceeds the limit, codesize
      receives optimal code lengths, those that merging the two smallest frequencies, ties to the larger symbol, leads
      to; otherwise the merging stops early and the lengths are those of no prefix code. */
  method BuildCodeSizes(freq: array<nat>, codesize: array<nat>, others: array<int>) returns (ghost t: Tree)
    requires freq.Length == NSYM && codesize.Length == NSYM && others.Length == NSYM && freq != codesize
    requires freq[256] > 0
    requires forall i :: 0 <= i < NSYM ==> codesize[i] == 0 && others[i] == -1
    modifies freq, codesize, others
    ensures StoppedLengths(old(freq[..]), codesize[..], t)
  {
    hide ForestOk, Sum, HuffmanLengths, Leaves, MergeForest, Round, Smallest, FinalForest, Mergeable, StoppedLengths;
    ghost var freq0 := freq[..];
    ghost var f := StartForest(freq0);
    RoundStart(freq0);
    while true
      invariant Round(freq0, f) && Represents(freq, codesize, others, f)
      decreases |f.trees|
    {
      RoundForest(freq0, f);
      var c1 := FindSmallest(freq, -1);
      var c2 := FindSmallest(freq, c1);
      assert forall i :: 0 <= i < NSYM ==> freq[..][i] == f.freq[i];
      if c2 < 0 {
        t := StoppedIs(freq0, f, c1);
        break;
      }
      NotFirst(f.freq, c1, c2);
      RoundMerge(freq0, f, c1, c2);
      Merge(freq, codesize, others, c1, c2, freq0, f);
      f := MergeForest(f, c1, c2);
    }
  }

  /** The second search finds nothing when the first has not. */
  lemma NotFirst(freq: seq<nat>, c1: int, c2: int)
    requires |freq| == NSYM && c2 >= 0 && Smallest(freq, c2, c1) && freq[c2] <= FREQ_LIMIT
    requires c1 < 0 ==> forall i :: 0 <= i < NSYM && i != -1 ==> freq[i] == 0 || freq[i] > FREQ_LIMIT
    ensures c1 >= 0 && c2 < NSYM
  {}

  /** The limit is exact: the code sizes are those of a prefix code if and only if no head but the last exceeds it. */
  lemma LimitExact(freq0: seq<nat>, codesize: seq<nat>, t: Tree, n: nat)
    requires StoppedLengths(freq0, codesize, t) && forall i :: 0 <= i < NSYM && freq0[i] > 0 ==> codesize[i] <= n
    ensures Kraft(freq0, codesize, n) <= Pow2(n) <==> Selectable(freq0, StartForest(freq0))
  {
    hide Kraft, Selectable, StoppedForest, FinalForest, ForestOk, Pow2, Fib, Sum, Cost, StartForest;
    if Selectable(freq0, StartForest(freq0)) {
      var s := HeightAttained(t);
      DepthsComplete(freq0, codesize, t, n);
    } else {
      Positive(n);
    }
  }

  lemma Positive(n: nat)
    ensures Pow2(n) >= 1
  {}
}
