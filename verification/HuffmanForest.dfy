/** The state of the tree builder seen as a forest: what the freq, codesize and others arrays stand for,
    and what one merge does to it (T.81 section K.2, figure K.1). */
module HuffmanForest {
  import opened Bits
  import opened Sums
  import opened HuffmanOptimality

  const NSYM := 257  // 256 symbols and the pseudo-symbol 256

  datatype Tree = Leaf(sym: nat) | Node(left: Tree, right: Tree)

  ghost function Leaves(t: Tree): (s: seq<nat>)
    ensures |s| > 0
  {
    match t
    case Leaf(sym) => [sym]
    case Node(l, r) => Leaves(l) + Leaves(r)
  }

  ghost function LeafSet(t: Tree): set<nat> {
    match t
    case Leaf(sym) => {sym}
    case Node(l, r) => LeafSet(l) + LeafSet(r)
  }

  ghost predicate Proper(t: Tree) {
    match t
    case Leaf(_) => true
    case Node(l, r) => Proper(l) && Proper(r) && LeafSet(l) !! LeafSet(r)
  }

  /** How deep symbol s lies in a tree that contains it. */
  ghost function Depth(t: Tree, s: nat): nat {
    match t
    case Leaf(_) => 0
    case Node(l, r) => 1 + if s in LeafSet(l) then Depth(l, s) else Depth(r, s)
  }

  ghost function Height(t: Tree): nat {
    match t
    case Leaf(_) => 0
    case Node(l, r) => 1 + if Height(l) >= Height(r) then Height(l) else Height(r)
  }

  ghost function Weight(t: Tree, freq: seq<nat>): nat {
    match t
    case Leaf(s) => if s < |freq| then freq[s] else 0
    case Node(l, r) => Weight(l, freq) + Weight(r, freq)
  }

  lemma {:induction false} LeavesAreLeafSet(t: Tree, s: nat)
    ensures s in Leaves(t) <==> s in LeafSet(t)
  {
    if t.Node? {
      LeavesAreLeafSet(t.left, s);
      LeavesAreLeafSet(t.right, s);
    }
  }

  ghost predicate NoRepeats(s: seq<nat>) {
    forall i, j :: 0 <= i < j < |s| ==> s[i] != s[j]
  }

  lemma {:induction false} LeavesDistinct(t: Tree)
    requires Proper(t)
    ensures NoRepeats(Leaves(t))
  {
    if t.Node? {
      LeavesDistinct(t.left);
      LeavesDistinct(t.right);
      var a, b := Leaves(t.left), Leaves(t.right);
      forall i, j | 0 <= i < |a| && 0 <= j < |b| ensures a[i] != b[j] {
        LeavesAreLeafSet(t.left, a[i]);
        LeavesAreLeafSet(t.right, b[j]);
      }
    }
  }

  lemma {:induction false} DepthBelowHeight(t: Tree, s: nat)
    ensures Depth(t, s) <= Height(t)
  {
    if t.Node? {
      DepthBelowHeight(t.left, s);
      DepthBelowHeight(t.right, s);
    }
  }

  /** The weight of a tree is the sum over its symbols. */
  lemma {:induction false} WeightIsSum(t: Tree, freq: seq<nat>)
    requires Proper(t) && forall s :: s in LeafSet(t) ==> s < |freq|
    ensures SumOver(freq, LeafSet(t)) == Weight(t, freq)
  {
    hide SumOver;
    match t
    case Leaf(s) =>
      assert s in LeafSet(t);
      SumOverOne(freq, s);
    case Node(l, r) =>
      assert LeafSet(l) <= LeafSet(t) && LeafSet(r) <= LeafSet(t);
      WeightIsSum(l, freq);
      WeightIsSum(r, freq);
      SumOverUnion(freq, LeafSet(l), LeafSet(r));
  }

  /** The leaves below a node at depth d account for exactly 2^-d of the Kraft sum. */
  lemma {:induction false} TreeKraft(t: Tree, g: seq<int>, n: nat, d: nat)
    requires Proper(t) && d + Height(t) <= n
    requires AtDepths(t, g, n, d)
    ensures SumOver(g, LeafSet(t)) == Pow2(n - d)
  {
    hide *;
    match t
    case Leaf(s) =>
      LeafKraft(s, g, n, d);
    case Node(l, r) =>
      NodeParts(t);
      ChildDepths(t, g, n, d);
      TreeKraft(l, g, n, d + 1);
      TreeKraft(r, g, n, d + 1);
      SumOverUnion(g, LeafSet(l), LeafSet(r));
      Pow2Step(n - d - 1);
  }

  /** g has 2^(n - depth) at the symbols of a subtree whose root lies at depth d. */
  ghost predicate AtDepths(t: Tree, g: seq<int>, n: nat, d: nat) {
    forall s :: s in LeafSet(t) ==> s < |g| && d + Depth(t, s) <= n && g[s] == Pow2(n - d - Depth(t, s))
  }

  lemma LeafKraft(s: nat, g: seq<int>, n: nat, d: nat)
    requires AtDepths(Leaf(s), g, n, d)
    ensures SumOver(g, LeafSet(Leaf(s))) == Pow2(n - d)
  {
    hide SumOver, Pow2;
    assert s in LeafSet(Leaf(s));
    SumOverOne(g, s);
  }

  lemma NodeParts(t: Tree)
    requires t.Node? && Proper(t)
    ensures Proper(t.left) && Proper(t.right) && LeafSet(t.left) !! LeafSet(t.right)
    ensures LeafSet(t) == LeafSet(t.left) + LeafSet(t.right)
    ensures Height(t.left) < Height(t) && Height(t.right) < Height(t)
  {}

  lemma ChildDepths(t: Tree, g: seq<int>, n: nat, d: nat)
    requires t.Node? && Proper(t) && d + Height(t) <= n && AtDepths(t, g, n, d)
    ensures AtDepths(t.left, g, n, d + 1) && AtDepths(t.right, g, n, d + 1)
  {
    hide Pow2, Height;
    forall s | s in LeafSet(t.left) ensures Depth(t, s) == 1 + Depth(t.left, s) && s in LeafSet(t) {}
    forall s | s in LeafSet(t.right) ensures Depth(t, s) == 1 + Depth(t.right, s) && s in LeafSet(t) {}
  }

  // ---- the arrays as a forest ----

  /** trees gives the tree of every head still in play, owner the head of every symbol in use. */
  datatype Forest = Forest(freq: seq<nat>, codesize: seq<nat>, others: seq<int>, trees: map<nat, Tree>, owner: seq<nat>)

  ghost predicate Sized(f: Forest) {
    |f.freq| == NSYM && |f.codesize| == NSYM && |f.others| == NSYM && |f.owner| == NSYM
  }

  /** The others links run through these symbols and end there. */
  ghost predicate Chained(others: seq<int>, chain: seq<nat>) {
    && |chain| > 0
    && (forall i :: 0 <= i < |chain| ==> chain[i] < |others|)
    && (forall i :: 0 <= i < |chain| - 1 ==> others[chain[i]] == chain[i + 1])
    && others[chain[|chain| - 1]] == -1
  }

  /** What the arrays say about the tree of head h. */
  ghost predicate TreeOk(freq0: seq<nat>, f: Forest, h: nat, t: Tree)
    requires |freq0| == NSYM && Sized(f) && h < NSYM
  {
    && Proper(t) && Leaves(t)[0] == h
    && (forall s :: s in LeafSet(t) ==> s < NSYM && freq0[s] > 0 && f.owner[s] == h && f.codesize[s] == Depth(t, s))
    && Chained(f.others, Leaves(t))
    && f.freq[h] == Weight(t, freq0)
  }

  ghost predicate ForestOk(freq0: seq<nat>, f: Forest) {
    && |freq0| == NSYM && Sized(f)
    && (forall h: nat :: h in f.trees <==> h < NSYM && f.freq[h] > 0)
    && (forall h :: h in f.trees ==> TreeOk(freq0, f, h, f.trees[h]))
    && (forall s :: 0 <= s < NSYM && freq0[s] > 0 ==> f.owner[s] in f.trees && s in LeafSet(f.trees[f.owner[s]]))
    && (forall s :: 0 <= s < NSYM && freq0[s] == 0 ==> f.codesize[s] == 0)
    && Sum(f.freq) == Sum(freq0)
  }

  ghost function StartForest(freq0: seq<nat>): Forest
    requires |freq0| == NSYM
  {
    Forest(freq0, seq(NSYM, i => 0), seq(NSYM, i => -1),
           map h: nat | h < NSYM && freq0[h] > 0 :: Leaf(h),
           seq(NSYM, i => i))
  }

  lemma StartOk(freq0: seq<nat>)
    requires |freq0| == NSYM
    ensures ForestOk(freq0, StartForest(freq0))
  {
    hide Sum;
    var f := StartForest(freq0);
    forall h | h in f.trees ensures TreeOk(freq0, f, h, f.trees[h]) {
      LoneLeaf(h, freq0);
    }
  }

  lemma LoneLeaf(h: nat, freq: seq<nat>)
    ensures Leaves(Leaf(h)) == [h] && LeafSet(Leaf(h)) == {h} && Proper(Leaf(h)) && Depth(Leaf(h), h) == 0
    ensures h < |freq| ==> Weight(Leaf(h), freq) == freq[h]
  {}

  ghost predicate Mergeable(f: Forest, c1: nat, c2: nat) {
    c1 in f.trees && c2 in f.trees && c1 != c2 && c1 < NSYM && c2 < NSYM
  }

  function Last(s: seq<nat>): nat
    requires |s| > 0
  {
    s[|s| - 1]
  }

  ghost function Incremented(codesize: seq<nat>, m: set<nat>): (r: seq<nat>)
    ensures |r| == |codesize|
  {
    seq(|codesize|, s requires 0 <= s < |codesize| => if s in m then codesize[s] + 1 else codesize[s])
  }

  /** What one round of the builder does. */
  ghost function MergeForest(f: Forest, c1: nat, c2: nat): Forest
    requires Sized(f) && Mergeable(f, c1, c2) && Last(Leaves(f.trees[c1])) < NSYM
  {
    var t1, t2 := f.trees[c1], f.trees[c2];
    Forest(Merged(f.freq, c1, c2),
           Incremented(Incremented(f.codesize, LeafSet(t1)), LeafSet(t2)),
           f.others[Last(Leaves(t1)) := c2],
           f.trees[c1 := Node(t1, t2)] - {c2},
           seq(NSYM, s requires 0 <= s < |f.owner| => if s in LeafSet(t2) then c1 else f.owner[s]))
  }

  lemma LastLeaf(t: Tree)
    ensures Last(Leaves(t)) in LeafSet(t)
  {
    LeavesAreLeafSet(t, Last(Leaves(t)));
  }

  /** Different heads own different symbols. */
  lemma OwnersDiffer(freq0: seq<nat>, f: Forest, c1: nat, c2: nat)
    requires ForestOk(freq0, f) && Mergeable(f, c1, c2)
    ensures LeafSet(f.trees[c1]) !! LeafSet(f.trees[c2])
    ensures Last(Leaves(f.trees[c1])) < NSYM && Last(Leaves(f.trees[c1])) in LeafSet(f.trees[c1])
  {
    assert TreeOk(freq0, f, c1, f.trees[c1]) && TreeOk(freq0, f, c2, f.trees[c2]);
    LastLeaf(f.trees[c1]);
  }

  /** Trees other than the two merged ones are not affected. */
  lemma OtherTree(freq0: seq<nat>, f: Forest, c1: nat, c2: nat, h: nat)
    requires ForestOk(freq0, f) && Mergeable(f, c1, c2) && h in f.trees && h != c1 && h != c2
    requires Last(Leaves(f.trees[c1])) < NSYM
    ensures Sized(MergeForest(f, c1, c2)) && h < NSYM && TreeOk(freq0, MergeForest(f, c1, c2), h, f.trees[h])
  {
    hide Leaves, LeafSet, Depth, Weight, Proper, Sum;
    var t, f' := f.trees[h], MergeForest(f, c1, c2);
    assert TreeOk(freq0, f, h, t);
    OwnersDiffer(freq0, f, h, c1);
    OwnersDiffer(freq0, f, h, c2);
    OwnersDiffer(freq0, f, c1, c2);
    forall i | 0 <= i < |Leaves(t)| ensures Leaves(t)[i] in LeafSet(t) {
      LeavesAreLeafSet(t, Leaves(t)[i]);
    }
  }

  /** Linking the last symbol of one chain to the head of the other joins the chains. */
  lemma ChainsJoin(others: seq<int>, a: seq<nat>, b: seq<nat>)
    requires Chained(others, a) && Chained(others, b) && NoRepeats(a)
    requires forall i, j :: 0 <= i < |a| && 0 <= j < |b| ==> a[i] != b[j]
    ensures Chained(others[Last(a) := b[0]], a + b)
  {
    var o' := others[Last(a) := b[0]];
    var c := a + b;
    forall i | 0 <= i < |c| - 1 ensures o'[c[i]] == c[i + 1] {
      if i < |a| - 1 {
        assert a[i] != Last(a);
      } else if i == |a| - 1 {
        assert c[i] == Last(a) && c[i + 1] == b[0];
      } else {
        assert c[i] == b[i - |a|] && c[i + 1] == b[i + 1 - |a|];
        assert a[|a| - 1] != b[i - |a|];
      }
    }
    assert a[|a| - 1] != b[|b| - 1] && c[|c| - 1] == b[|b| - 1];
  }

  /** The merged tree. */
  lemma MergedTree(freq0: seq<nat>, f: Forest, c1: nat, c2: nat)
    requires ForestOk(freq0, f) && Mergeable(f, c1, c2) && Last(Leaves(f.trees[c1])) < NSYM
    ensures Sized(MergeForest(f, c1, c2)) && TreeOk(freq0, MergeForest(f, c1, c2), c1, Node(f.trees[c1], f.trees[c2]))
  {
    hide Sum, Chained, Incremented;
    var t1, t2, f' := f.trees[c1], f.trees[c2], MergeForest(f, c1, c2);
    var t := Node(t1, t2);
    OwnersDiffer(freq0, f, c1, c2);
    assert TreeOk(freq0, f, c1, t1) && TreeOk(freq0, f, c2, t2);
    TreesChain(f.others, t1, t2);
    assert Leaves(t)[0] == c1;
    forall s | s in LeafSet(t) ensures f'.codesize[s] == Depth(t, s) && f'.owner[s] == c1 {
      IncrementedBoth(f.codesize, LeafSet(t1), LeafSet(t2), s);
    }
  }

  lemma TreesChain(others: seq<int>, a: Tree, b: Tree)
    requires Proper(a) && LeafSet(a) !! LeafSet(b) && Chained(others, Leaves(a)) && Chained(others, Leaves(b))
    ensures Last(Leaves(a)) < |others| && Chained(others[Last(Leaves(a)) := Leaves(b)[0]], Leaves(a) + Leaves(b))
  {
    hide Leaves, LeafSet;
    LeavesDistinct(a);
    forall i, j | 0 <= i < |Leaves(a)| && 0 <= j < |Leaves(b)| ensures Leaves(a)[i] != Leaves(b)[j] {
      LeavesAreLeafSet(a, Leaves(a)[i]);
      LeavesAreLeafSet(b, Leaves(b)[j]);
    }
    ChainsJoin(others, Leaves(a), Leaves(b));
  }

  lemma IncrementedBoth(codesize: seq<nat>, a: set<nat>, b: set<nat>, s: nat)
    requires s < |codesize| && a !! b
    ensures Incremented(Incremented(codesize, a), b)[s] == codesize[s] + (if s in a || s in b then 1 else 0)
  {}

  lemma MergedTotal(freq: seq<nat>, c1: nat, c2: nat)
    requires c1 < |freq| && c2 < |freq| && c1 != c2
    ensures Sum(Merged(freq, c1, c2)) == Sum(freq)
  {
    hide *;
    MergedIs(freq, c1, c2);
    var v := freq[c1] + freq[c2];
    SumUpdate(freq, c1, v);
    SumUpdate(freq[c1 := v], c2, 0);
  }

  lemma MergedIs(freq: seq<nat>, c1: nat, c2: nat)
    requires c1 < |freq| && c2 < |freq| && c1 != c2
    ensures Merged(freq, c1, c2) == freq[c1 := freq[c1] + freq[c2]][c2 := 0]
  {}

  /** One round keeps the invariant. */
  lemma MergeOk(freq0: seq<nat>, f: Forest, c1: nat, c2: nat)
    requires ForestOk(freq0, f) && Mergeable(f, c1, c2)
    ensures Last(Leaves(f.trees[c1])) < NSYM && ForestOk(freq0, MergeForest(f, c1, c2))
    ensures |MergeForest(f, c1, c2).trees| == |f.trees| - 1
  {
    hide Leaves, LeafSet, Depth, Weight, Proper, Sum, Chained, Incremented, TreeOk;
    OwnersDiffer(freq0, f, c1, c2);
    var f' := MergeForest(f, c1, c2);
    MergedTree(freq0, f, c1, c2);
    MergedTotal(f.freq, c1, c2);
    forall h | h in f'.trees ensures TreeOk(freq0, f', h, f'.trees[h]) {
      if h != c1 {
        OtherTree(freq0, f, c1, c2, h);
      }
    }
    OwnersAfter(freq0, f, c1, c2);
    UnusedAfter(freq0, f, c1, c2);
    assert f.trees[c1 := Node(f.trees[c1], f.trees[c2])].Keys == f.trees.Keys;
    assert f'.trees.Keys == f.trees.Keys - {c2};
  }

  lemma OwnersAfter(freq0: seq<nat>, f: Forest, c1: nat, c2: nat)
    requires ForestOk(freq0, f) && Mergeable(f, c1, c2) && Last(Leaves(f.trees[c1])) < NSYM
    ensures var f' := MergeForest(f, c1, c2);
      forall s :: 0 <= s < NSYM && freq0[s] > 0 ==> f'.owner[s] in f'.trees && s in LeafSet(f'.trees[f'.owner[s]])
  {
    hide Leaves, Depth, Weight, Proper, Sum, Chained, Incremented;
    var f' := MergeForest(f, c1, c2);
    forall s | 0 <= s < NSYM && freq0[s] > 0 ensures f'.owner[s] in f'.trees && s in LeafSet(f'.trees[f'.owner[s]]) {
      var h := f.owner[s];
      assert h in f.trees && s in LeafSet(f.trees[h]);
      if h != c2 {
        OwnersDiffer(freq0, f, h, c2);
      }
    }
  }

  lemma UnusedAfter(freq0: seq<nat>, f: Forest, c1: nat, c2: nat)
    requires ForestOk(freq0, f) && Mergeable(f, c1, c2) && Last(Leaves(f.trees[c1])) < NSYM
    ensures forall s :: 0 <= s < NSYM && freq0[s] == 0 ==> MergeForest(f, c1, c2).codesize[s] == 0
  {
    hide Leaves, Depth, Weight, Proper, Sum, Chained;
    assert TreeOk(freq0, f, c1, f.trees[c1]) && TreeOk(freq0, f, c2, f.trees[c2]);
  }

  // ---- cost and optimality along the way ----

  lemma {:induction false} CostIncremented(freq0: seq<nat>, codesize: seq<nat>, m: set<nat>)
    requires |freq0| == |codesize|
    ensures Cost(freq0, Incremented(codesize, m)) == Cost(freq0, codesize) + SumOver(freq0, m)
  {
    var a, b, c := CostTerms(freq0, codesize), Masked(freq0, m), CostTerms(freq0, Incremented(codesize, m));
    forall i | 0 <= i < |a| ensures c[i] == a[i] + b[i] {
      if i in m { Distribute(codesize[i], 1, freq0[i]); }
    }
    SumAdd(a, b, c);
  }

  /** The lengths so far, together with feasible lengths for the heads, never cost more than any feasible lengths. */
  ghost predicate SoFarOptimal(freq0: seq<nat>, f: Forest)
    requires ForestOk(freq0, f)
  {
    Dominates(freq0, f.freq, Cost(freq0, f.codesize))
  }

  lemma StartOptimal(freq0: seq<nat>)
    requires |freq0| == NSYM
    ensures ForestOk(freq0, StartForest(freq0)) && SoFarOptimal(freq0, StartForest(freq0))
  {
    hide ForestOk, Dominates;
    StartOk(freq0);
    SumZero(CostTerms(freq0, StartForest(freq0).codesize));
    DominatesStart(freq0);
  }

  lemma MergedCost(freq0: seq<nat>, f: Forest, c1: nat, c2: nat)
    requires ForestOk(freq0, f) && Mergeable(f, c1, c2) && Last(Leaves(f.trees[c1])) < NSYM
    ensures |freq0| == |f.freq| == |MergeForest(f, c1, c2).codesize| == |f.codesize|
    ensures Cost(freq0, MergeForest(f, c1, c2).codesize) == Cost(freq0, f.codesize) + f.freq[c1] + f.freq[c2]
  {
    hide Leaves, LeafSet, Depth, Weight, Proper, Sum, Chained, Incremented, Cost, Merged, SumOver;
    var t1, t2 := f.trees[c1], f.trees[c2];
    assert TreeOk(freq0, f, c1, t1) && TreeOk(freq0, f, c2, t2);
    CostIncremented(freq0, f.codesize, LeafSet(t1));
    CostIncremented(freq0, Incremented(f.codesize, LeafSet(t1)), LeafSet(t2));
    WeightIsSum(t1, freq0);
    WeightIsSum(t2, freq0);
  }

  lemma MergeOptimal(freq0: seq<nat>, f: Forest, c1: nat, c2: nat)
    requires ForestOk(freq0, f) && Mergeable(f, c1, c2) && SoFarOptimal(freq0, f)
    requires Smallest(f.freq, c1, -1) && Smallest(f.freq, c2, c1)
    ensures Last(Leaves(f.trees[c1])) < NSYM && ForestOk(freq0, MergeForest(f, c1, c2))
    ensures SoFarOptimal(freq0, MergeForest(f, c1, c2))
  {
    hide Leaves, LeafSet, ForestOk, Sum, Incremented, Dominates, Cost, Merged, Smallest;
    MergeOk(freq0, f, c1, c2);
    MergedCost(freq0, f, c1, c2);
    DominatesMerge(freq0, f.freq, Cost(freq0, f.codesize), c1, c2);
  }

  // ---- Fibonacci growth: why codes stay short ----

  function Fib(n: nat): nat {
    if n == 0 then 0 else if n == 1 then 1 else Fib(n - 1) + Fib(n - 2)
  }

  ghost function MaxChild(t: Tree, freq: seq<nat>): nat {
    match t
    case Leaf(_) => 0
    case Node(l, r) => if Weight(l, freq) >= Weight(r, freq) then Weight(l, freq) else Weight(r, freq)
  }

  /** Every subtree of height d weighs at least Fib(d + 2). */
  ghost predicate FibHeavy(t: Tree, freq: seq<nat>) {
    Weight(t, freq) >= Fib(Height(t) + 2) &&
    match t
    case Leaf(_) => true
    case Node(l, r) => FibHeavy(l, freq) && FibHeavy(r, freq)
  }

  /** No head is lighter than a child of another head. */
  ghost predicate Growing(freq0: seq<nat>, f: Forest)
    requires ForestOk(freq0, f)
  {
    && (forall h :: h in f.trees ==> FibHeavy(f.trees[h], freq0))
    && (forall h, k :: h in f.trees && k in f.trees && h != k ==> f.freq[k] >= MaxChild(f.trees[h], freq0))
  }

  lemma StartGrowing(freq0: seq<nat>)
    requires |freq0| == NSYM
    ensures ForestOk(freq0, StartForest(freq0)) && Growing(freq0, StartForest(freq0))
  {
    hide ForestOk, Fib;
    StartOk(freq0);
    var f := StartForest(freq0);
    forall h | h in f.trees ensures FibHeavy(f.trees[h], freq0) && MaxChild(f.trees[h], freq0) == 0 {
      LeafHeavy(h, freq0);
    }
  }

  lemma LeafHeavy(h: nat, freq: seq<nat>)
    requires h < |freq| && freq[h] > 0
    ensures FibHeavy(Leaf(h), freq) && MaxChild(Leaf(h), freq) == 0
  {
    assert Fib(2) == Fib(1) + Fib(0);
  }

  lemma FibStep(n: nat)
    ensures Fib(1) == Fib(2) == 1 && Fib(n + 2) == Fib(n + 1) + Fib(n)
  {
    assert Fib(2) == Fib(1) + Fib(0);
  }

  lemma JoinHeavy(a: Tree, b: Tree, freq: seq<nat>)
    requires FibHeavy(a, freq) && FibHeavy(b, freq) && Height(a) >= Height(b)
    requires Weight(b, freq) >= MaxChild(a, freq)
    ensures Weight(a, freq) + Weight(b, freq) >= Fib(Height(a) + 3)
  {
    hide *;
    FibStep(Height(a) + 1);
    FibStep(0);
    HeavyIs(a, freq);
    HeavyIs(b, freq);
    if a.Node? { ChildHeavy(a, freq); }
  }

  lemma ChildHeavy(a: Tree, freq: seq<nat>)
    requires FibHeavy(a, freq) && a.Node?
    ensures MaxChild(a, freq) >= Fib(Height(a) + 1)
  {
    hide *;
    HeavyIs(a, freq);
    HeavyIs(a.left, freq);
    HeavyIs(a.right, freq);
  }

  lemma HeavyIs(t: Tree, freq: seq<nat>)
    requires FibHeavy(t, freq)
    ensures Weight(t, freq) >= Fib(Height(t) + 2)
    ensures t.Leaf? ==> Height(t) == 0
    ensures t.Node? ==>
      && FibHeavy(t.left, freq) && FibHeavy(t.right, freq)
      && Weight(t.left, freq) <= MaxChild(t, freq) && Weight(t.right, freq) <= MaxChild(t, freq)
      && Height(t) == 1 + (if Height(t.left) >= Height(t.right) then Height(t.left) else Height(t.right))
  {
    hide Fib, Weight;
  }

  lemma MergeHeavy(a: Tree, b: Tree, freq: seq<nat>)
    requires FibHeavy(a, freq) && FibHeavy(b, freq)
    requires Weight(b, freq) >= MaxChild(a, freq) && Weight(a, freq) >= MaxChild(b, freq)
    ensures FibHeavy(Node(a, b), freq)
  {
    hide Fib, MaxChild;
    if Height(a) >= Height(b) {
      JoinHeavy(a, b, freq);
    } else {
      JoinHeavy(b, a, freq);
    }
  }

  lemma MergeGrowing(freq0: seq<nat>, f: Forest, c1: nat, c2: nat)
    requires ForestOk(freq0, f) && Mergeable(f, c1, c2) && Growing(freq0, f)
    requires Smallest(f.freq, c1, -1) && Smallest(f.freq, c2, c1)
    ensures Last(Leaves(f.trees[c1])) < NSYM && ForestOk(freq0, MergeForest(f, c1, c2))
    ensures Growing(freq0, MergeForest(f, c1, c2))
  {
    hide Leaves, LeafSet, Sum, Incremented, Fib, FibHeavy, Weight, MaxChild, Merged, TreeOk, Smallest;
    MergeOk(freq0, f, c1, c2);
    var f', t1, t2 := MergeForest(f, c1, c2), f.trees[c1], f.trees[c2];
    HeadWeight(freq0, f, c1);
    HeadWeight(freq0, f, c2);
    MergeHeavy(t1, t2, freq0);
    MergedMaxChild(t1, t2, freq0);
    MergedIs(f.freq, c1, c2);
    forall h, k | h in f'.trees && k in f'.trees && h != k ensures f'.freq[k] >= MaxChild(f'.trees[h], freq0) {
      if h != c1 {
        HeavierThanChild(freq0, f, h, k);
      } else {
        NotSmaller(f.freq, c1, -1, k);
        NotSmaller(f.freq, c2, c1, k);
      }
    }
  }

  lemma HeavierThanChild(freq0: seq<nat>, f: Forest, h: nat, k: nat)
    requires ForestOk(freq0, f) && Growing(freq0, f) && h in f.trees && k in f.trees && h != k
    ensures k < |f.freq| && f.freq[k] >= MaxChild(f.trees[h], freq0)
  {
    hide TreeOk, MaxChild, FibHeavy, Leaves, LeafSet, Sum;
  }

  lemma HeadWeight(freq0: seq<nat>, f: Forest, h: nat)
    requires ForestOk(freq0, f) && h in f.trees
    ensures h < NSYM && f.freq[h] == Weight(f.trees[h], freq0)
  {
    assert TreeOk(freq0, f, h, f.trees[h]);
  }

  lemma NotSmaller(freq: seq<nat>, c: nat, excl: int, k: nat)
    requires Smallest(freq, c, excl) && k < |freq| && freq[k] > 0 && k != excl
    ensures c < |freq| && freq[c] <= freq[k]
  {}

  lemma MergedMaxChild(a: Tree, b: Tree, freq: seq<nat>)
    ensures MaxChild(Node(a, b), freq)
      == if Weight(a, freq) >= Weight(b, freq) then Weight(a, freq) else Weight(b, freq)
  {
    hide Weight;
  }

  // ---- the finished tree ----

  /** The builder is done: one tree holds every symbol in use. */
  ghost predicate Finished(freq0: seq<nat>, f: Forest, root: nat)
    requires ForestOk(freq0, f)
  {
    root in f.trees && forall h :: h in f.trees ==> h == root
  }

  /** codesize gives the depths of one Huffman tree over exactly the symbols in use. */
  ghost predicate DepthsOf(freq0: seq<nat>, codesize: seq<nat>, t: Tree) {
    && |freq0| == NSYM && |codesize| == NSYM && Proper(t)
    && (forall s: nat :: s in LeafSet(t) <==> s < NSYM && freq0[s] > 0)
    && (forall s :: s in LeafSet(t) ==> codesize[s] == Depth(t, s))
    && (forall s :: 0 <= s < NSYM && freq0[s] == 0 ==> codesize[s] == 0)
  }

  lemma FinishedTree(freq0: seq<nat>, f: Forest, root: nat)
    requires ForestOk(freq0, f) && Finished(freq0, f, root)
    ensures DepthsOf(freq0, f.codesize, f.trees[root])
  {
    hide Leaves, LeafSet, Depth, Weight, Proper, Sum, Chained;
    assert TreeOk(freq0, f, root, f.trees[root]);
  }

  lemma FinishedHeavy(freq0: seq<nat>, f: Forest, root: nat)
    requires ForestOk(freq0, f) && Finished(freq0, f, root) && Growing(freq0, f)
    ensures Sum(freq0) >= Fib(Height(f.trees[root]) + 2)
  {
    hide Fib, Depth, Chained, Leaves;
    var t := f.trees[root];
    assert TreeOk(freq0, f, root, t);
    FinishedTree(freq0, f, root);
    WeightIsSum(t, freq0);
    assert Masked(freq0, LeafSet(t)) == freq0;
  }

  lemma {:induction false} FibMono(a: nat, b: nat)
    requires a <= b
    ensures Fib(a) <= Fib(b)
  {
    if a < b {
      FibMono(a, b - 1);
      if b >= 2 { assert Fib(b) == Fib(b - 1) + Fib(b - 2); }
    }
  }

  /** The Kraft sum of the depths of a tree is exactly one. */
  lemma DepthsComplete(freq0: seq<nat>, codesize: seq<nat>, t: Tree, n: nat)
    requires DepthsOf(freq0, codesize, t) && Height(t) <= n
    ensures Kraft(freq0, codesize, n) == Pow2(n)
  {
    hide Pow2, Depth, Height, Sum, Proper, LeafSet;
    var g := KraftTerms(freq0, codesize, n);
    forall s | s in LeafSet(t) ensures Depth(t, s) <= Height(t) && g[s] == Pow2(n - 0 - Depth(t, s)) {
      DepthBelowHeight(t, s);
    }
    TreeKraft(t, g, n, 0);
    assert Masked(g, LeafSet(t)) == g;
  }

  /** Every head's branch accounts for a Kraft sum of exactly one, at every stage. */
  lemma HeadKraft(freq0: seq<nat>, f: Forest, h: nat, n: nat)
    requires ForestOk(freq0, f) && h in f.trees && Height(f.trees[h]) <= n
    ensures SumOver(KraftTerms(freq0, f.codesize, n), LeafSet(f.trees[h])) == Pow2(n)
  {
    hide Pow2, Depth, Height, Sum, Proper, LeafSet, Leaves, Chained;
    var t, g := f.trees[h], KraftTerms(freq0, f.codesize, n);
    assert TreeOk(freq0, f, h, t);
    forall s | s in LeafSet(t) ensures Depth(t, s) <= Height(t) && g[s] == Pow2(n - 0 - Depth(t, s)) {
      DepthBelowHeight(t, s);
    }
    TreeKraft(t, g, n, 0);
  }

  /** There are still two heads to merge. */
  ghost predicate HasPair(freq: seq<nat>) {
    exists c1: nat, c2: nat :: Smallest(freq, c1, -1) && Smallest(freq, c2, c1)
  }

  lemma SmallestUnique(freq: seq<nat>, c: nat, d: nat, excl: int)
    requires Smallest(freq, c, excl) && Smallest(freq, d, excl)
    ensures c == d
  {}

  /** Two heads can always be ranked. */
  lemma {:induction false} SmallestExists(freq: seq<nat>, excl: int, k: nat, s: nat) returns (c: nat)
    requires s < k <= |freq| && freq[s] > 0 && s != excl
    ensures c < k && freq[c] > 0 && c != excl
    ensures forall i :: 0 <= i < k && freq[i] > 0 && i != excl ==> freq[c] < freq[i] || (freq[c] == freq[i] && i <= c)
  {
    if exists j :: 0 <= j < k - 1 && freq[j] > 0 && j != excl {
      var j :| 0 <= j < k - 1 && freq[j] > 0 && j != excl;
      c := SmallestExists(freq, excl, k - 1, j);
      if freq[k - 1] > 0 && k - 1 != excl && freq[k - 1] <= freq[c] { c := k - 1; }
    } else {
      c := s;
    }
  }

  lemma NoPairAlone(freq: seq<nat>, r: nat, h: nat)
    requires !HasPair(freq) && r < |freq| && h < |freq| && freq[r] > 0 && freq[h] > 0
    ensures r == h
  {
    if r != h {
      var c1 := SmallestExists(freq, -1, |freq|, r);
      var c2 := SmallestExists(freq, c1, |freq|, if c1 == r then h else r);
      assert Smallest(freq, c1, -1) && Smallest(freq, c2, c1);
    }
  }

  lemma AloneIsSmallest(freq: seq<nat>, r: nat)
    requires r < |freq| && freq[r] > 0 && forall i :: 0 <= i < |freq| && i != r ==> freq[i] == 0
    ensures Smallest(freq, r, -1)
  {}

  lemma ForestSized(freq0: seq<nat>, f: Forest)
    requires ForestOk(freq0, f)
    ensures Sized(f) && |freq0| == NSYM
  {}

  lemma {:induction false} HeightAttained(t: Tree) returns (s: nat)
    requires Proper(t)
    ensures s in LeafSet(t) && Depth(t, s) == Height(t)
  {
    match t
    case Leaf(x) =>
      s := x;
    case Node(l, r) =>
      if Height(l) >= Height(r) {
        s := HeightAttained(l);
      } else {
        s := HeightAttained(r);
      }
  }

  lemma PairMergeable(freq0: seq<nat>, f: Forest, c1: nat, c2: nat)
    requires ForestOk(freq0, f) && Smallest(f.freq, c1, -1) && Smallest(f.freq, c2, c1)
    ensures Mergeable(f, c1, c2)
  {
    hide TreeOk, Sum;
  }

  /** Reference: merge the two smallest, ties to the larger symbol, until one head is left. */
  ghost function FinalForest(freq0: seq<nat>, f: Forest): Forest
    requires ForestOk(freq0, f)
    decreases |f.trees|
  {
    if HasPair(f.freq) then
      var c1: nat, c2: nat :| Smallest(f.freq, c1, -1) && Smallest(f.freq, c2, c1);
      PairMergeable(freq0, f, c1, c2);
      MergeOk(freq0, f, c1, c2);
      FinalForest(freq0, MergeForest(f, c1, c2))
    else f
  }

  lemma FinalMerge(freq0: seq<nat>, f: Forest, c1: nat, c2: nat)
    requires ForestOk(freq0, f) && Smallest(f.freq, c1, -1) && Smallest(f.freq, c2, c1)
    ensures Mergeable(f, c1, c2) && Last(Leaves(f.trees[c1])) < NSYM && ForestOk(freq0, MergeForest(f, c1, c2))
    ensures FinalForest(freq0, f) == FinalForest(freq0, MergeForest(f, c1, c2))
  {
    hide ForestOk, Leaves, MergeForest, Smallest;
    PairMergeable(freq0, f, c1, c2);
    MergeOk(freq0, f, c1, c2);
    assert HasPair(f.freq);
    forall d1: nat, d2: nat | Smallest(f.freq, d1, -1) && Smallest(f.freq, d2, d1) ensures d1 == c1 && d2 == c2 {
      SmallestUnique(f.freq, c1, d1, -1);
      SmallestUnique(f.freq, c2, d2, c1);
    }
  }

  lemma FinalAlone(freq0: seq<nat>, f: Forest, root: nat)
    requires ForestOk(freq0, f) && root < NSYM && forall i :: 0 <= i < NSYM && i != root ==> f.freq[i] == 0
    ensures FinalForest(freq0, f) == f
  {
    hide TreeOk, Sum;
  }
}
