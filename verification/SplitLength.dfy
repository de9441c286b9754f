/** Counts for which limiting gives the more frequent of two symbols the longer code. Symbols 2, 3 and 4, which occur
    6, 7 and 8 times, have Huffman codes of 15 bits. To make room for the two codes of 17 bits one of the three is
    lengthened: that of symbol 4, the largest number. */
module SplitLengths {
  import opened Bits
  import opened Sums
  import opened HuffmanTable
  import opened HuffmanOptimality
  import opened HuffmanForest
  import opened LengthLimit
  import opened StoppedForests
  import opened OptimalTable
  import opened TableOrders

  function Count(s: nat): nat {
    if s <= 1 then 2 * s + 1
    else if s <= 4 then s + 4
    else if s <= 17 then 27 * Pow2(s - 5)
    else 0
  }

  function Counts(): (r: seq<nat>)
    ensures |r| == NSYM
  {
    seq(NSYM, s requires 0 <= s < NSYM => Count(s))
  }

  // ---- the Huffman tree ----

  /** A round of the builder in which only 256 and 3 can be heads of trees that are no leaves. */
  ghost predicate Stage(freq0: seq<nat>, f: Forest, w: seq<nat>, t: Tree, u: Tree) {
    ForestOk(freq0, f) && f.freq == w && forall h :: h in f.trees ==> f.trees[h] == TreeOf(h, t, u)
  }

  function TreeOf(h: nat, t: Tree, u: Tree): Tree {
    if h == 256 then t else if h == 3 then u else Leaf(h)
  }

  lemma Round(freq0: seq<nat>, f: Forest, w: seq<nat>, t: Tree, u: Tree, c1: nat, c2: nat) returns (f': Forest)
    requires Stage(freq0, f, w, t, u) && (c1 == 256 || c1 == 3) && c1 != c2
    requires Smallest(w, c1, -1) && Smallest(w, c2, c1)
    ensures var joined := Node(TreeOf(c1, t, u), TreeOf(c2, t, u));
      Stage(freq0, f', Merged(w, c1, c2), if c1 == 256 then joined else t, if c1 == 3 then joined else u)
    ensures FinalForest(freq0, f) == FinalForest(freq0, f')
  {
    hide ForestOk, FinalForest, Leaves, LeafSet, Incremented, Smallest, Merged;
    ForestSized(freq0, f);
    FinalMerge(freq0, f, c1, c2);
    f' := MergeForest(f, c1, c2);
  }

  /** The weights when k of the frequent symbols have been merged. */
  function ChainWeight(k: nat, s: nat): nat {
    if s == 256 then 27 * Pow2(k) - 1 else if 5 + k <= s <= 17 then 27 * Pow2(s - 5) else 0
  }

  function ChainWeights(k: nat): (r: seq<nat>)
    ensures |r| == NSYM
  {
    seq(NSYM, s requires 0 <= s < NSYM => ChainWeight(k, s))
  }

  /** And the tree of 256. */
  function ChainTree(k: nat): Tree {
    if k == 0 then
      Node(Node(Node(Node(Leaf(256), Leaf(0)), Leaf(1)), Leaf(2)), Node(Leaf(3), Leaf(4)))
    else Node(ChainTree(k - 1), Leaf(k + 4))
  }

  lemma ChainRound(k: nat)
    requires k < 13
    ensures Smallest(ChainWeights(k), 256, -1) && Smallest(ChainWeights(k), 5 + k, 256)
    ensures Merged(ChainWeights(k), 256, 5 + k) == ChainWeights(k + 1)
  {
    hide Pow2;
    Pow2Step(k);
    forall s: nat | 5 + k < s <= 17 ensures ChainWeight(k, s) > 27 * Pow2(k) {
      Pow2Mono(k + 1, s - 5);
      Pow2Mono(0, k);
    }
  }

  lemma {:induction false} Chain(freq0: seq<nat>, f: Forest, k: nat, u: Tree)
    requires Stage(freq0, f, ChainWeights(k), ChainTree(k), u) && k <= 13
    ensures var r := FinalForest(freq0, f); Stage(freq0, r, ChainWeights(13), ChainTree(13), u)
    decreases 13 - k
  {
    hide ForestOk, FinalForest, Smallest, ChainWeights, Merged;
    if k == 13 {
      OnlyOne();
      FinalAlone(freq0, f, 256);
    } else {
      ChainRound(k);
      var f' := Round(freq0, f, ChainWeights(k), ChainTree(k), u, 256, 5 + k);
      Chain(freq0, f', k + 1, u);
    }
  }

  lemma OnlyOne()
    ensures forall i :: 0 <= i < NSYM && i != 256 ==> ChainWeights(13)[i] == 0
  {}

  lemma AtLeast27()
    ensures forall s: nat :: 5 <= s <= 17 ==> Count(s) >= 27
    ensures Count(5) == 27
  {
    hide Pow2;
    Pow2Step(0);
    forall s: nat | 5 <= s <= 17 ensures Count(s) >= 27 { Pow2Mono(0, s - 5); }
  }

  /** The weights of the rare symbols in the first five rounds. */
  function Rare(w256: nat, w0: nat, w1: nat, w2: nat, w3: nat, w4: nat): (r: seq<nat>)
    ensures |r| == NSYM
  {
    seq(NSYM, s requires 0 <= s < NSYM =>
      if s == 256 then w256 else if s == 0 then w0 else if s == 1 then w1 else if s == 2 then w2
      else if s == 3 then w3 else if s == 4 then w4 else Count(s))
  }

  lemma RareRounds()
    ensures WithPseudo(Counts()) == Rare(1, 1, 3, 6, 7, 8)
    ensures Smallest(Rare(1, 1, 3, 6, 7, 8), 256, -1) && Smallest(Rare(1, 1, 3, 6, 7, 8), 0, 256)
    ensures Smallest(Rare(2, 0, 3, 6, 7, 8), 256, -1) && Smallest(Rare(2, 0, 3, 6, 7, 8), 1, 256)
    ensures Smallest(Rare(5, 0, 0, 6, 7, 8), 256, -1) && Smallest(Rare(5, 0, 0, 6, 7, 8), 2, 256)
    ensures Smallest(Rare(11, 0, 0, 0, 7, 8), 3, -1) && Smallest(Rare(11, 0, 0, 0, 7, 8), 4, 3)
    ensures Smallest(Rare(11, 0, 0, 0, 15, 0), 256, -1) && Smallest(Rare(11, 0, 0, 0, 15, 0), 3, 256)
    ensures Rare(26, 0, 0, 0, 0, 0) == ChainWeights(0)
  {
    hide Pow2;
    AtLeast27();
    Pow2Step(0);
  }

  lemma RareMerges()
    ensures Merged(Rare(1, 1, 3, 6, 7, 8), 256, 0) == Rare(2, 0, 3, 6, 7, 8)
    ensures Merged(Rare(2, 0, 3, 6, 7, 8), 256, 1) == Rare(5, 0, 0, 6, 7, 8)
    ensures Merged(Rare(5, 0, 0, 6, 7, 8), 256, 2) == Rare(11, 0, 0, 0, 7, 8)
    ensures Merged(Rare(11, 0, 0, 0, 7, 8), 3, 4) == Rare(11, 0, 0, 0, 15, 0)
    ensures Merged(Rare(11, 0, 0, 0, 15, 0), 256, 3) == Rare(26, 0, 0, 0, 0, 0)
  {
    hide Count;
  }

  /** The finished tree is the chain. */
  lemma TreeBuilt() returns (u: Tree)
    ensures var freq0 := WithPseudo(Counts());
      && ForestOk(freq0, StartForest(freq0))
      && Stage(freq0, FinalForest(freq0, StartForest(freq0)), ChainWeights(13), ChainTree(13), u)
  {
    hide ForestOk, FinalForest, Smallest, ChainWeights, ChainTree, Rare, Merged, WithPseudo, Counts;
    var freq0 := WithPseudo(Counts());
    StartOk(freq0);
    RareRounds();
    RareMerges();
    var f := StartForest(freq0);
    var t := Leaf(256);
    u := Leaf(3);
    f := Round(freq0, f, Rare(1, 1, 3, 6, 7, 8), t, u, 256, 0);
    t := Node(t, Leaf(0));
    f := Round(freq0, f, Rare(2, 0, 3, 6, 7, 8), t, u, 256, 1);
    t := Node(t, Leaf(1));
    f := Round(freq0, f, Rare(5, 0, 0, 6, 7, 8), t, u, 256, 2);
    t := Node(t, Leaf(2));
    f := Round(freq0, f, Rare(11, 0, 0, 0, 7, 8), t, u, 3, 4);
    u := Node(u, Leaf(4));
    f := Round(freq0, f, Rare(11, 0, 0, 0, 15, 0), t, u, 256, 3);
    FirstTree();
    Chain(freq0, f, 0, u);
  }

  lemma FirstTree()
    ensures ChainTree(0) == Node(Node(Node(Node(Leaf(256), Leaf(0)), Leaf(1)), Leaf(2)), Node(Leaf(3), Leaf(4)))
  {}

  // ---- the code lengths ----

  /** The Huffman code lengths. */
  function Size(s: nat): nat {
    if s == 0 || s == 256 then 17
    else if s == 1 then 16
    else if s <= 4 then 15
    else if s <= 17 then 18 - s
    else 0
  }

  lemma {:induction false} ChainDepth(k: nat, s: nat)
    requires k <= 13
    ensures s in LeafSet(ChainTree(k)) <==> s == 256 || s <= k + 4
    ensures s in LeafSet(ChainTree(k)) ==> Depth(ChainTree(k), s) + 13 == Size(s) + k
  {
    if k > 0 { ChainDepth(k - 1, s); }
  }

  function Sizes(): (r: seq<nat>)
    ensures |r| == NSYM
  {
    seq(NSYM, s requires 0 <= s < NSYM => Size(s))
  }

  lemma SizesAre()
    ensures CodeSizes(Counts()) == Sizes()
    ensures Sum(WithPseudo(Counts())) == 27 * Pow2(13) - 1
  {
    hide *;
    var u := TreeBuilt();
    var freq0 := WithPseudo(Counts());
    var f := FinalForest(freq0, StartForest(freq0));
    CodeSizesIs(Counts());
    FinalSizes(freq0, f, u);
    FinalTotal(freq0, f, u);
  }

  lemma CodeSizesIs(freq: seq<nat>)
    requires |freq| == NSYM && ForestOk(WithPseudo(freq), StartForest(WithPseudo(freq)))
    ensures var f := FinalForest(WithPseudo(freq), StartForest(WithPseudo(freq)));
      |f.codesize| == NSYM ==> CodeSizes(freq) == f.codesize
  {
    hide ForestOk, FinalForest, StartForest;
  }

  lemma FinalSizes(freq0: seq<nat>, f: Forest, u: Tree)
    requires freq0 == WithPseudo(Counts()) && Stage(freq0, f, ChainWeights(13), ChainTree(13), u)
    ensures f.codesize == Sizes()
  {
    hide LeafSet, Depth, Leaves, Chained, Weight, Sum, Pow2, Size, WithPseudo, Counts, ChainTree;
    TopHead();
    assert TreeOk(freq0, f, 256, ChainTree(13));
    forall s: nat | s < NSYM ensures f.codesize[s] == Size(s) {
      ChainDepth(13, s);
      if s != 256 && s > 17 { Unused(s); }
    }
  }

  lemma TopHead()
    ensures ChainWeights(13)[256] > 0
  {
    hide Pow2;
    Pow2Mono(0, 13);
    Pow2Step(0);
  }

  lemma FinalTotal(freq0: seq<nat>, f: Forest, u: Tree)
    requires Stage(freq0, f, ChainWeights(13), ChainTree(13), u)
    ensures Sum(freq0) == 27 * Pow2(13) - 1
  {
    hide TreeOk, Sum, Pow2, ChainTree;
    OnlyOne();
    SumUpdate(f.freq, 256, 0);
    SumZero(f.freq[256 := 0]);
  }

  lemma Unused(s: nat)
    requires s < NSYM && s != 256 && s > 17
    ensures Size(s) == 0 && WithPseudo(Counts())[s] == 0
  {}

  // ---- the table ----

  /** How many of the real symbols have Huffman codes of l bits. */
  function RealCount(l: nat): byte {
    if 1 <= l <= 13 || l == 16 || l == 17 then 1 else if l == 15 then 3 else 0
  }

  /** Those among the first k symbols. */
  function FirstCount(k: nat, l: nat): nat {
    if l == 17 then (if k >= 1 then 1 else 0)
    else if l == 16 then (if k >= 2 then 1 else 0)
    else if l == 15 then (if k <= 2 then 0 else if k <= 5 then k - 2 else 3)
    else if 19 - k <= l <= 13 then 1 else 0
  }

  lemma {:induction false} HistogramFirst(k: nat, l: nat)
    requires k <= 18 && 1 <= l
    ensures Histogram(Sizes(), k, l) == FirstCount(k, l)
  {
    if k > 0 { HistogramFirst(k - 1, l); }
  }

  lemma {:induction false} HistogramReal(k: nat, l: nat)
    requires 18 <= k <= 256 && 1 <= l
    ensures Histogram(Sizes(), k, l) == RealCount(l)
  {
    if k == 18 { HistogramFirst(k, l); } else { HistogramReal(k - 1, l); }
  }

  /** The counts of the lengths, as they are and as limiting leaves them. */
  function Bits33(n15: byte, n16: byte, n17: byte): (r: seq<byte>)
    ensures |r| == 33
  {
    seq(33, l requires 0 <= l < 33 => if l == 15 then n15 else if l == 16 then n16 else if l == 17 then n17
                                      else if 1 <= l <= 13 then 1 else 0)
  }

  lemma HistogramIs(hist: seq<byte>)
    requires Counted(hist, Sizes(), NSYM)
    ensures hist == Bits33(3, 1, 2)
  {
    hide Sum, Histogram, LengthTerms, Sizes, NumUsed;
    forall l | 1 <= l < 33 ensures hist[l] == Bits33(3, 1, 2)[l] {
      HistogramReal(256, l);
      LastCounted(l);
    }
  }

  lemma LastCounted(l: nat)
    ensures Histogram(Sizes(), NSYM, l) == Histogram(Sizes(), 256, l) + if l == 17 then 1 else 0
  {}

  lemma {:induction false} SkipUnused(bits: seq<byte>, i: nat, j: nat)
    requires Whole(bits, i) && 16 <= j <= i && forall l :: j < l <= i ==> bits[l] == 0
    ensures Whole(bits, j) && Limited(bits, i) == Limited(bits, j)
  {
    hide Limited, Sum, Shares, Pow2;
    if j < i {
      LimitedStep(bits, i);
      SkipUnused(bits, i - 1, j);
    }
  }

  lemma LimitedIs()
    requires Whole(Bits33(3, 1, 2), 32)
    ensures Limited(Bits33(3, 1, 2), 32) == Bits33(2, 4, 0)
  {
    hide Limited, Whole, Sum, Shares, Pow2, Adjusted;
    var b := Bits33(3, 1, 2);
    SkipUnused(b, 32, 17);
    LimitedStep(b, 17);
    assert TopUsed(b, 15) == 15;
    AdjustedIs(b, 17, 15, Bits33(2, 4, 0));
    SkipUnused(Bits33(2, 4, 0), 17, 16);
    LimitedEnd(Bits33(2, 4, 0));
  }

  lemma TableBits(t: HuffTable)
    requires FromSizes(t, Sizes())
    ensures t.bits == Bits33(2, 3, 0)[..17]
  {
    hide Limited, Sum, Shares, Pow2, Counted, Ranked, Sizes;
    var hist: seq<byte> :| Counted(hist, Sizes(), NSYM) && Whole(hist, 32) && Whole(Limited(hist, 32), 16)
      && t.bits == Dropped(Limited(hist, 32))[..17];
    HistogramIs(hist);
    LimitedIs();
    assert TopUsed(Bits33(2, 4, 0), 16) == 16;
    assert Dropped(Bits33(2, 4, 0)) == Bits33(2, 3, 0);
  }

  lemma {:induction false} Indices(bits: seq<byte>, l: nat)
    requires bits == Bits33(2, 3, 0)[..17] && 1 <= l <= 17
    ensures FirstIndex(bits, l) == if l <= 14 then l - 1 else if l == 15 then 13 else if l == 16 then 15 else 18
  {
    if l > 1 { Indices(bits, l - 1); }
  }

  lemma {:induction false} Ranks(l: nat)
    requires l <= 15
    ensures ShortSymbols(Sizes(), l) == if l <= 13 then l else if l == 14 then 13 else 16
  {
    hide Histogram, Sizes;
    if l > 0 {
      Ranks(l - 1);
      HistogramReal(256, l);
    }
  }

  /** Symbols 2, 3 and 4 have places 13, 14 and 15 in the table. */
  lemma Places(t: HuffTable)
    requires GoodTable(t, Counts(), Sizes()) && FromSizes(t, Sizes())
    ensures Total(t.bits) == 18 && t.huffval[14] == 3 && t.huffval[15] == 4
  {
    hide KraftUpTo, NumUsed, FirstIndex, Sizes, Counts, GoodTable, FromSizes, Bits33;
    TableBits(t);
    Indices(t.bits, 17);
    MiddleSymbols();
    var p2 := PlaceOf(t, 2);
    var p3 := PlaceOf(t, 3);
    var p4 := PlaceOf(t, 4);
    InOrder(t, 2, 3, p2, p3);
    InOrder(t, 3, 4, p3, p4);
  }

  lemma InOrder(t: HuffTable, a: byte, b: byte, p: nat, q: nat)
    requires GoodTable(t, Counts(), Sizes()) && p < Total(t.bits) && q < Total(t.bits)
    requires t.huffval[p] == a < b == t.huffval[q] && Sizes()[a] == Sizes()[b]
    ensures p < q
  {
    hide KraftUpTo, NumUsed, FirstIndex, Sizes, Counts;
    assert !Before(Sizes(), b, a);
  }

  lemma MiddleSymbols()
    ensures Counts()[2] == 6 && Counts()[3] == 7 && Counts()[4] == 8
    ensures Sizes()[2] == Sizes()[3] == Sizes()[4] == 15
  {}

  lemma PlaceOf(t: HuffTable, s: byte) returns (p: nat)
    requires GoodTable(t, Counts(), Sizes()) && FromSizes(t, Sizes()) && Counts()[s] > 0 && Sizes()[s] == 15
    ensures p < Total(t.bits) && t.huffval[p] == s && 13 <= p <= 15
  {
    hide FirstIndex, Sizes, Counts, ShortSymbols, Rank, GoodTable, FromSizes;
    p := Listing(t, Counts(), Sizes(), s);
    PlaceIs(t, Sizes(), p);
    RankBounds(Sizes(), s);
    Ranks(14);
    Ranks(15);
  }

  /** Symbol 4 occurs more often than symbol 3 and has the longer code. */
  lemma FrequentLonger(t: HuffTable)
    requires GoodTable(t, Counts(), CodeSizes(Counts())) && FromSizes(t, CodeSizes(Counts()))
    ensures Total(t.bits) == 18 && t.huffval[14] == 3 && t.huffval[15] == 4 && Counts()[4] > Counts()[3] > 0
    ensures SizeOf(t.bits, 14) == 15 && SizeOf(t.bits, 15) == 16
  {
    hide CodeSizes, FirstIndex, Sizes, Counts, SizeOf, KraftUpTo, Bits33;
    SizesAre();
    Places(t);
    MiddleSymbols();
    TableBits(t);
    Indices(t.bits, 15);
    Indices(t.bits, 16);
    Indices(t.bits, 17);
    SizeUnique(t.bits, 14, 15);
    SizeUnique(t.bits, 15, 16);
  }

  lemma {:induction false} Used(k: nat)
    requires k <= 256
    ensures NumUsed(Counts(), k) == if k <= 18 then k else 18
  {
    hide Pow2;
    AtLeast27();
    if k > 0 { Used(k - 1); }
  }

  lemma Power13()
    ensures Pow2(13) == 8192
  {
    assert Pow2(6) == 64 && Pow2(10) == 1024;
  }

  /** And this is the table that the program generates. */
  method LongerCode() returns (t: HuffTable)
    ensures GoodTable(t, Counts(), CodeSizes(Counts()))
    ensures t.huffval[14] == 3 && t.huffval[15] == 4 && Counts()[4] > Counts()[3] > 0
    ensures Total(t.bits) == 18 && SizeOf(t.bits, 15) > SizeOf(t.bits, 14)
  {
    hide CodeSizes, BuiltSizes, Counts, WithinLimit, FromSizes, NumUsed, Sum, SizeOf, Total, KraftUpTo, Before;
    var freq := new nat[NSYM](i requires 0 <= i < NSYM => Count(i));
    CountsAre(freq[..]);
    SizesAre();
    Power13();
    SmallTotal(Counts());
    BuiltWithin(Counts());
    Used(256);
    var r := GenOptimalTable(freq);
    t := r.table;
    FrequentLonger(t);
  }

  lemma CountsAre(freq: seq<nat>)
    requires |freq| == NSYM && forall i :: 0 <= i < NSYM ==> freq[i] == Count(i)
    ensures freq == Counts()
  {}
}
