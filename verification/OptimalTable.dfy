/** Generating the best Huffman table for given symbol counts (jchuff.c, jpeg_gen_optimal_table). */
module OptimalTable {
  import opened Bits
  import opened Sums
  import opened HuffmanTable
  import opened HuffmanOptimality
  import opened HuffmanForest
  import opened HuffmanBuilder
  import opened FrequencyLimits
  import opened StoppedForests
  import opened PseudoSymbols
  import opened PrefixCodes
  import opened LengthLimit

  /** NoCode: no symbol has a code, and the search for the longest one leaves its array. */
  datatype GenResult = Generated(table: HuffTable) | CodeLengthOverflow | NoCode

  // ---- counting symbols in use ----

  /** How many of the first k symbols are in use. */
  function NumUsed(s: seq<nat>, k: nat): (n: nat)
    requires k <= |s|
    ensures n <= k
  {
    if k == 0 then 0 else NumUsed(s, k - 1) + if s[k - 1] > 0 then 1 else 0
  }

  lemma {:induction false} SameUse(a: seq<nat>, b: seq<nat>, k: nat)
    requires k <= |a| && k <= |b| && forall i :: 0 <= i < k ==> (a[i] > 0 <==> b[i] > 0)
    ensures NumUsed(a, k) == NumUsed(b, k)
  {
    if k > 0 {
      SameUse(a, b, k - 1);
    }
  }

  /** The real symbols in use. */
  function UsedSymbols(s: seq<nat>, k: nat): (r: set<byte>)
    requires k <= |s| && k <= 256
  {
    set c: byte | c < k && s[c] > 0
  }

  lemma {:induction false} UsedSymbolsSize(s: seq<nat>, k: nat)
    requires k <= |s| && k <= 256
    ensures |UsedSymbols(s, k)| == NumUsed(s, k)
  {
    if k > 0 {
      UsedSymbolsSize(s, k - 1);
      var c: byte := k - 1;
      if s[k - 1] > 0 {
        assert UsedSymbols(s, k) == UsedSymbols(s, k - 1) + {c};
      } else {
        assert UsedSymbols(s, k) == UsedSymbols(s, k - 1);
      }
    }
  }

  // ---- the histogram of code lengths ----

  /** How many of the first k symbols have code length l. */
  function Histogram(codesize: seq<nat>, k: nat, l: nat): nat
    requires k <= |codesize|
  {
    if k == 0 then 0 else Histogram(codesize, k - 1, l) + if codesize[k - 1] == l then 1 else 0
  }

  /** What has been counted among the first k symbols. */
  ghost predicate Counted(bits: seq<byte>, codesize: seq<nat>, k: nat)
    requires k <= |codesize|
  {
    && |bits| == 33 && bits[0] == 0
    && Sum(bits) == NumUsed(codesize, k)
    && Sum(Shares(bits)) == Sum(LengthTerms(codesize)[..k])
    && forall l :: 1 <= l <= 32 ==> bits[l] == Histogram(codesize, k, l)
  }

  lemma CountedStart(bits: seq<byte>, codesize: seq<nat>)
    requires |bits| == 33 && forall l :: 0 <= l < 33 ==> bits[l] == 0
    ensures Counted(bits, codesize, 0)
  {
    SumZero(bits);
    SumZero(Shares(bits));
  }

  lemma CountedSkip(bits: seq<byte>, codesize: seq<nat>, k: nat)
    requires k < |codesize| && Counted(bits, codesize, k) && codesize[k] == 0
    ensures Counted(bits, codesize, k + 1)
  {
    hide Pow2, Shares;
    var t := LengthTerms(codesize);
    assert t[..k + 1][..k] == t[..k];
  }

  lemma CountedNext(bits: seq<byte>, codesize: seq<nat>, k: nat)
    requires k < |codesize| && Counted(bits, codesize, k) && 0 < codesize[k] <= 32 && bits[codesize[k]] < 255
    ensures Counted(bits[codesize[k] := bits[codesize[k]] + 1], codesize, k + 1)
  {
    hide Pow2, Shares;
    var t := LengthTerms(codesize);
    assert t[..k + 1][..k] == t[..k];
    SharesUpdate(bits, codesize[k], bits[codesize[k]] + 1, 1);
  }

  lemma {:induction false} UsedMono(s: seq<nat>, a: nat, b: nat)
    requires a <= b <= |s|
    ensures NumUsed(s, a) <= NumUsed(s, b)
  {
    if a < b {
      UsedMono(s, a, b - 1);
    }
  }

  lemma BelowSum(bits: seq<byte>, l: nat)
    requires l < |bits|
    ensures bits[l] <= Sum(bits)
  {
    SumNonneg(bits);
  }

  /** Lines 778-788: the histogram, or failure when a code is longer than 32 bits. */
  method CountLengths(codesize: array<nat>) returns (ok: bool, bits: array<byte>)
    requires codesize.Length == NSYM && NumUsed(codesize[..], NSYM) <= 255
    ensures fresh(bits) && bits.Length == 33
    ensures ok <==> forall s :: 0 <= s < NSYM ==> codesize[s] <= 32
    ensures ok ==> Counted(bits[..], codesize[..], NSYM)
  {
    hide Counted, NumUsed, Sum;
    bits := new byte[33](i => 0);
    CountedStart(bits[..], codesize[..]);
    ghost var sizes := codesize[..];
    for i := 0 to NSYM
      invariant Counted(bits[..], sizes, i)
      invariant forall s :: 0 <= s < i ==> codesize[s] <= MAX_CLEN
    {
      if codesize[i] != 0 {
        if codesize[i] > MAX_CLEN {
          return false, bits;
        }
        ghost var b := bits[..];
        NoWrap(b, sizes, i);
        bits[codesize[i]] := (bits[codesize[i]] + 1) % 256;
        CountedNext(b, sizes, i);
        assert bits[..] == b[sizes[i] := b[sizes[i]] + 1];
      } else {
        CountedSkip(bits[..], sizes, i);
      }
    }
    ok := true;
  }

  /** The counters are wide enough. */
  lemma NoWrap(bits: seq<byte>, codesize: seq<nat>, i: nat)
    requires i < |codesize| && Counted(bits, codesize, i) && NumUsed(codesize, |codesize|) <= 255
    requires 0 < codesize[i] <= 32
    ensures |bits| == 33 && bits[codesize[i]] < 255
  {
    BelowSum(bits, codesize[i]);
    UsedMono(codesize, i + 1, |codesize|);
  }

  // ---- the symbols sorted by code length ----

  /** a comes before b in the table: by code length, then by symbol. */
  ghost predicate Before(codesize: seq<nat>, a: byte, b: byte)
    requires |codesize| >= 256
  {
    codesize[a] < codesize[b] || (codesize[a] == codesize[b] && a < b)
  }

  /** The first p values are, in order, the symbols with code lengths below l, and those of length l below symbol j. */
  ghost predicate Listed(vals: seq<byte>, p: nat, codesize: seq<nat>, l: nat, j: nat)
    requires |codesize| >= 256
  {
    && p <= |vals|
    && (forall q, r :: 0 <= q < r < p ==> Before(codesize, vals[q], vals[r]))
    && (forall s: byte :: s in vals[..p] <==> codesize[s] > 0 && (codesize[s] < l || (codesize[s] == l && s < j)))
  }

  lemma ListedDistinct(vals: seq<byte>, p: nat, codesize: seq<nat>, l: nat, j: nat)
    requires |codesize| >= 256 && Listed(vals, p, codesize, l, j)
    ensures Distinct(vals, p)
  {}

  ghost function ValueSet(vals: seq<byte>, p: nat): (r: set<byte>)
    requires p <= |vals|
  {
    set q | 0 <= q < p :: vals[q]
  }

  lemma {:induction false} DistinctSize(vals: seq<byte>, p: nat)
    requires p <= |vals| && Distinct(vals, p)
    ensures |ValueSet(vals, p)| == p
  {
    if p > 0 {
      DistinctSize(vals, p - 1);
      var before, last := ValueSet(vals, p - 1), vals[p - 1];
      assert last !in before;
      assert ValueSet(vals, p) == before + {last};
    }
  }

  lemma {:induction false} AllBytes(k: nat) returns (r: set<byte>)
    requires k <= 256
    ensures |r| == k && forall b: byte :: b in r <==> b < k
  {
    if k == 0 {
      r := {};
    } else {
      r := AllBytes(k - 1);
      var b: byte := k - 1;
      r := r + {b};
    }
  }

  /** There is room for a symbol not listed yet. */
  lemma RoomLeft(vals: seq<byte>, p: nat, b: byte)
    requires p <= |vals| && Distinct(vals, p) && b !in vals[..p]
    ensures p < 256
  {
    DistinctSize(vals, p);
    var all := AllBytes(256);
    assert b !in ValueSet(vals, p);
    SubsetSize(ValueSet(vals, p) + {b}, all);
  }

  /** How many real symbols have a code length of at most l. */
  function ShortSymbols(codesize: seq<nat>, l: nat): nat
    requires |codesize| >= 256
  {
    if l == 0 then 0 else ShortSymbols(codesize, l - 1) + Histogram(codesize, 256, l)
  }

  /** The place of a symbol: behind all symbols with shorter codes and the smaller ones of the same length. */
  function Rank(codesize: seq<nat>, s: byte): nat
    requires |codesize| >= 256 && codesize[s] > 0
  {
    ShortSymbols(codesize, codesize[s] - 1) + Histogram(codesize, s, codesize[s])
  }

  /** Every listed symbol stands at its place. */
  ghost predicate Ranked(vals: seq<byte>, p: nat, codesize: seq<nat>)
    requires |codesize| >= 256
  {
    p <= |vals| && forall q :: 0 <= q < p ==> codesize[vals[q]] > 0 && q == Rank(codesize, vals[q])
  }

  lemma RankBounds(codesize: seq<nat>, s: byte)
    requires |codesize| >= 256 && codesize[s] > 0
    ensures ShortSymbols(codesize, codesize[s] - 1) <= Rank(codesize, s) < ShortSymbols(codesize, codesize[s])
  {
    HistogramMono(codesize, s + 1, 256, codesize[s]);
  }

  /** Symbols listed when length l has been searched up to symbol j. */
  ghost predicate Placed(p: nat, codesize: seq<nat>, l: nat, j: nat)
    requires |codesize| >= 256 && l > 0 && j <= 256
  {
    p == ShortSymbols(codesize, l - 1) + Histogram(codesize, j, l)
  }

  lemma {:induction false} HistogramMono(codesize: seq<nat>, a: nat, b: nat, l: nat)
    requires a <= b <= |codesize|
    ensures Histogram(codesize, a, l) <= Histogram(codesize, b, l)
  {
    if a < b { HistogramMono(codesize, a, b - 1, l); }
  }

  lemma PlaceNext(vals: seq<byte>, p: nat, codesize: seq<nat>, l: nat, j: byte)
    requires |codesize| >= 256 && l > 0 && Placed(p, codesize, l, j) && Ranked(vals, p, codesize)
    ensures codesize[j] == l && p < |vals| ==>
      Placed(p + 1, codesize, l, j + 1) && Ranked(vals[p := j], p + 1, codesize)
    ensures codesize[j] != l ==> Placed(p, codesize, l, j + 1)
  {}

  lemma PlaceRow(p: nat, codesize: seq<nat>, l: nat)
    requires |codesize| >= 256 && l > 0 && Placed(p, codesize, l, 256)
    ensures Placed(p, codesize, l + 1, 0)
  {}

  /** Lines 826-834: the symbols in order of code length. */
  method ListSymbols(codesize: array<nat>) returns (huffval: array<byte>, p: nat)
    requires codesize.Length == NSYM
    requires forall s :: 0 <= s < NSYM ==> codesize[s] <= MAX_CLEN
    ensures fresh(huffval) && huffval.Length == 256
    ensures p <= 256 && Listed(huffval[..], p, codesize[..], 33, 0) && Ranked(huffval[..], p, codesize[..])
  {
    hide Before, Placed, Ranked, Listed;
    huffval := new byte[256];
    p := 0;
    ghost var sizes := codesize[..];
    ListStart(huffval[..], sizes);
    for i := 1 to MAX_CLEN + 1
      invariant p <= 256 && Listed(huffval[..], p, sizes, i, 0) && Ranked(huffval[..], p, sizes)
        && Placed(p, sizes, i, 0)
    {
      for j := 0 to 256
        invariant p <= 256 && Listed(huffval[..], p, sizes, i, j) && Ranked(huffval[..], p, sizes)
          && Placed(p, sizes, i, j)
      {
        ghost var v := huffval[..];
        PlaceNext(v, p, sizes, i, j);
        if codesize[j] == i {
          BeforeDistinct(v, p, sizes, i, j);
          RoomLeft(v, p, j);
          huffval[p] := j;
          p := p + 1;
          ListNext(v, p - 1, sizes, i, j);
          assert huffval[..] == v[p - 1 := j];
        } else {
          ListSkip(v, p, sizes, i, j);
        }
      }
      ListRow(huffval[..], p, sizes, i);
      PlaceRow(p, sizes, i);
    }
  }

  lemma ListStart(vals: seq<byte>, codesize: seq<nat>)
    requires |codesize| >= 256
    ensures Listed(vals, 0, codesize, 1, 0) && Ranked(vals, 0, codesize) && Placed(0, codesize, 1, 0)
  {}

  lemma BeforeDistinct(vals: seq<byte>, p: nat, codesize: seq<nat>, l: nat, j: byte)
    requires |codesize| >= 256 && Listed(vals, p, codesize, l, j) && codesize[j] == l
    ensures Distinct(vals, p) && j !in vals[..p]
  {}

  lemma ListNext(vals: seq<byte>, p: nat, codesize: seq<nat>, l: nat, j: byte)
    requires |codesize| >= 256 && Listed(vals, p, codesize, l, j) && codesize[j] == l && l >= 1 && p < |vals|
    ensures Listed(vals[p := j], p + 1, codesize, l, j + 1)
  {
    var v := vals[p := j];
    assert v[..p + 1] == vals[..p] + [j];
    forall q | 0 <= q < p ensures Before(codesize, v[q], j) {
      assert vals[q] in vals[..p];
    }
  }

  lemma ListSkip(vals: seq<byte>, p: nat, codesize: seq<nat>, l: nat, j: byte)
    requires |codesize| >= 256 && Listed(vals, p, codesize, l, j) && codesize[j] != l
    ensures Listed(vals, p, codesize, l, j + 1)
  {
    hide Before;
  }

  lemma ListRow(vals: seq<byte>, p: nat, codesize: seq<nat>, l: nat)
    requires |codesize| >= 256 && Listed(vals, p, codesize, l, 256)
    ensures Listed(vals, p, codesize, l + 1, 0)
  {
    hide Before;
  }

  // ---- the table ----

  /** A table fit for use: its codes are for exactly the symbols that occur, sorted by Huffman code length,
      and they leave room for the all-ones code. */
  ghost predicate GoodTable(t: HuffTable, freq: seq<nat>, codesize: seq<nat>)
    requires |freq| == NSYM && |codesize| == NSYM
  {
    && WellFormed(t)
    && Total(t.bits) == NumUsed(freq, 256) <= 254
    && KraftUpTo(t.bits, 16) < Pow2(16)
    && (forall s: byte :: s in t.huffval[..Total(t.bits)] <==> freq[s] > 0)
    && (forall p, q :: 0 <= p < q < Total(t.bits) ==> Before(codesize, t.huffval[p], t.huffval[q]))
  }

  /** One code of the longest length given up. */
  function Dropped(bits: seq<byte>): (r: seq<byte>)
    requires |bits| == 33
    ensures |r| == 33
  {
    var k := TopUsed(bits, 16);
    if bits[k] > 0 then bits[k := bits[k] - 1] else bits
  }

  /** The length counts of the table are the histogram of the Huffman code lengths, limited to 16 bits as in figure K.3
      and without one longest code; each symbol stands at its place in the order of lengths. */
  ghost predicate FromSizes(t: HuffTable, codesize: seq<nat>)
    requires |codesize| == NSYM
  {
    && (exists hist: seq<byte> ::
         Counted(hist, codesize, NSYM) && Whole(hist, 32) && Whole(Limited(hist, 32), 16)
         && t.bits == Dropped(Limited(hist, 32))[..17])
    && |t.bits| == 17 && Ranked(t.huffval, Total(t.bits), codesize)
  }

  /** Such a table is always accepted when its symbols are in the range of its class. */
  lemma GoodTableAcceptable(t: HuffTable, freq: seq<nat>, codesize: seq<nat>, isDC: bool)
    requires |freq| == NSYM && |codesize| == NSYM && GoodTable(t, freq, codesize)
    ensures Acceptable(t, isDC) <==> !isDC || forall s: byte :: freq[s] > 0 ==> s <= 15
  {
    hide Before, KraftUpTo, FirstIndex;
    if forall s: byte :: freq[s] > 0 ==> s <= MaxSymbol(isDC) {
      forall p | 0 <= p < Total(t.bits) ensures t.huffval[p] <= MaxSymbol(isDC) {
        assert t.huffval[p] in t.huffval[..Total(t.bits)];
      }
      GoodDistinct(t, freq, codesize);
    } else {
      var s: byte :| freq[s] > 0 && s > MaxSymbol(isDC);
      assert s in t.huffval[..Total(t.bits)];
    }
  }

  lemma GoodDistinct(t: HuffTable, freq: seq<nat>, codesize: seq<nat>)
    requires |freq| == NSYM && |codesize| == NSYM && GoodTable(t, freq, codesize)
    ensures Distinct(t.huffval, Total(t.bits))
  {
    hide KraftUpTo, FirstIndex;
    forall p, q | 0 <= p < q < Total(t.bits) ensures t.huffval[p] != t.huffval[q] {
      assert Before(codesize, t.huffval[p], t.huffval[q]);
    }
  }

  /** A symbol whose Huffman code was shorter never gets a longer code in the table. */
  lemma {:induction false} OrderKept(t: HuffTable, freq: seq<nat>, codesize: seq<nat>, p: nat, q: nat)
    requires |freq| == NSYM && |codesize| == NSYM && GoodTable(t, freq, codesize)
    requires p < Total(t.bits) && q < Total(t.bits) && codesize[t.huffval[p]] < codesize[t.huffval[q]]
    ensures SizeOf(t.bits, p) <= SizeOf(t.bits, q)
  {
    hide KraftUpTo, FirstIndex, SizeOf;
    if q < p {
      assert false;
    }
    SizesMono(t.bits, p, q);
  }

  lemma SizesMono(bits: seq<byte>, p: nat, q: nat)
    requires |bits| == 17 && p <= q < Total(bits)
    ensures SizeOf(bits, p) <= SizeOf(bits, q)
  {
    hide FirstIndex, SizeFrom;
    var a, b := SizeOf(bits, p), SizeOf(bits, q);
    if b < a {
      FirstCodeStep(bits, b);
      FirstIndexMono(bits, b + 1, a);
    }
  }

  // ---- from the 33-entry histogram to the 17-entry table ----

  lemma {:induction false} FirstIndexIsSum(bits: seq<byte>, all: seq<byte>, l: nat)
    requires |bits| == 17 && |all| == 33 && bits == all[..17] && all[0] == 0 && 1 <= l <= 17
    ensures FirstIndex(bits, l) == Sum(all[..l])
  {
    assert all[..l][..l - 1] == all[..l - 1];
    if l > 1 {
      FirstIndexIsSum(bits, all, l - 1);
    } else {
      assert all[..1] == [0];
    }
  }

  lemma {:induction false} KraftIsSum(bits: seq<byte>, all: seq<byte>, l: nat)
    requires |bits| == 17 && |all| == 33 && bits == all[..17] && all[0] == 0 && l <= 16
    ensures KraftUpTo(bits, l) * Pow2(16) == Sum(Shares(all)[..l + 1])
  {
    hide *;
    var s := Shares(all);
    SumPrefix(s, l);
    ShareAt(all, l);
    if l > 0 {
      KraftIsSum(bits, all, l - 1);
      FirstCodeStep(bits, l);
      Pow2Add(16 - l, 16);
      assert (16 - l) + 16 == 32 - l;
      Distribute(KraftUpTo(bits, l - 1), bits[l] * Pow2(16 - l), Pow2(16));
      Associate(bits[l], Pow2(16 - l), Pow2(16));
    } else {
      FirstCodeStep(bits, 1);
      assert s[..0] == [];
    }
  }

  lemma SumPrefix(s: seq<int>, l: nat)
    requires l < |s|
    ensures Sum(s[..l + 1]) == Sum(s[..l]) + s[l] && Sum([]) == 0
  {
    assert s[..l + 1][..l] == s[..l];
  }

  lemma ShareAt(bits: seq<byte>, l: nat)
    requires |bits| == 33 && l <= 32
    ensures Shares(bits)[l] == bits[l] * Pow2(32 - l)
    ensures bits[l] == 0 ==> Shares(bits)[l] == 0
  {}

  lemma {:induction false} SumTail(s: seq<int>, n: nat)
    requires n <= |s| && forall i :: n <= i < |s| ==> s[i] == 0
    ensures Sum(s) == Sum(s[..n])
  {
    if n < |s| {
      SumTail(s[..|s| - 1], n);
      assert s[..|s| - 1][..n] == s[..n];
    } else {
      assert s[..n] == s;
    }
  }

  /** The 17 entries carry over the counts and the Kraft sum. */
  lemma CutTo17(all: seq<byte>)
    requires |all| == 33 && all[0] == 0 && forall l :: 17 <= l < 33 ==> all[l] == 0
    ensures Total(all[..17]) == Sum(all)
    ensures KraftUpTo(all[..17], 16) < Pow2(16) <==> Sum(Shares(all)) < Pow2(32)
  {
    hide *;
    var bits := all[..17];
    FirstIndexIsSum(bits, all, 17);
    TotalIs(bits);
    KraftIsSum(bits, all, 16);
    SumTail(all, 17);
    forall l | 17 <= l < 33 ensures Shares(all)[l] == 0 { ShareAt(all, l); }
    SumTail(Shares(all), 17);
    Pow2Add(16, 16);
    assert 16 + 16 == 32;
    Pow2Mono(0, 16);
    Pow2Step(0);
    FactorBelow(KraftUpTo(bits, 16), Pow2(16));
  }

  lemma TotalIs(bits: seq<byte>)
    requires |bits| == 17
    ensures Total(bits) == FirstIndex(bits, 17)
  {}

  lemma FactorBelow(k: nat, p: nat)
    requires p > 0
    ensures k * p < p * p <==> k < p
  {
    if k >= p {
      MulMono(p, k, p);
    } else {
      MulMono(k + 1, p, p);
      Distribute(k, 1, p);
    }
  }

  // ---- properties of the code lengths ----

  /** With two symbols in use every symbol in use has a code of at least one bit, and the sums agree. */
  lemma LengthsInUse(freq0: seq<nat>, codesize: seq<nat>, t: Tree, sym: nat)
    requires DepthsOf(freq0, codesize, t) && freq0[256] > 0 && sym < 256 && freq0[sym] > 0
    ensures forall s :: 0 <= s < NSYM ==> (codesize[s] > 0 <==> freq0[s] > 0)
  {
    hide Height, Leaves;
    assert 256 in LeafSet(t) && sym in LeafSet(t);
    assert t.Node?;
  }

  lemma ShortTree(freq0: seq<nat>, codesize: seq<nat>, t: Tree)
    requires DepthsOf(freq0, codesize, t)
    ensures (forall s :: 0 <= s < NSYM ==> codesize[s] <= MAX_CLEN) <==> Height(t) <= MAX_CLEN
  {
    hide Depth, Height, Leaves, Proper, LeafSet;
    var deepest := HeightAttained(t);
    assert deepest < NSYM && codesize[deepest] == Height(t);
    forall s | 0 <= s < NSYM && codesize[s] > 0 ensures codesize[s] <= Height(t) {
      assert freq0[s] > 0 && s in LeafSet(t);
      DepthBelowHeight(t, s);
    }
  }

  lemma LengthsComplete(freq0: seq<nat>, codesize: seq<nat>, t: Tree)
    requires DepthsOf(freq0, codesize, t) && Height(t) <= MAX_CLEN
    requires forall s :: 0 <= s < NSYM ==> (codesize[s] > 0 <==> freq0[s] > 0)
    ensures Sum(LengthTerms(codesize)) == Pow2(32)
  {
    hide Pow2, Depth, Height, Leaves, Proper, LeafSet, Sum;
    DepthsComplete(freq0, codesize, t, 32);
    assert LengthTerms(codesize) == KraftTerms(freq0, codesize, 32);
  }

  /** The Kraft sum of the histogram is that of the code lengths. */
  lemma CountedKraft(bits: seq<byte>, codesize: seq<nat>)
    requires |codesize| == NSYM && Counted(bits, codesize, NSYM)
    ensures Sum(Shares(bits)) == Sum(LengthTerms(codesize)) && Sum(bits) == NumUsed(codesize, NSYM)
  {
    hide Pow2, Sum, Shares, Histogram;
    assert LengthTerms(codesize)[..NSYM] == LengthTerms(codesize);
  }

  lemma CountedWhole(bits: seq<byte>, codesize: seq<nat>, k: nat)
    requires |codesize| == NSYM && Counted(bits, codesize, NSYM) && NumUsed(codesize, NSYM) <= 255
    requires Sum(LengthTerms(codesize)) == k * Pow2(32) && k >= 1
    ensures Whole(bits, 32) && Sum(Shares(bits)) == k * Pow2(32)
  {
    hide Pow2, Sum, Shares, Histogram, LengthTerms;
    CountedKraft(bits, codesize);
    StillWhole(bits, 32, k);
  }

  lemma FibThirtyFive()
    ensures Fib(35) == 9227465
  {
    assert Fib(2) == 1 && Fib(3) == 2 && Fib(4) == 3 && Fib(5) == 5 && Fib(6) == 8 && Fib(7) == 13 && Fib(8) == 21;
    assert Fib(9) == 34 && Fib(10) == 55 && Fib(11) == 89 && Fib(12) == 144 && Fib(13) == 233 && Fib(14) == 377;
    assert Fib(15) == 610 && Fib(16) == 987 && Fib(17) == 1597 && Fib(18) == 2584 && Fib(19) == 4181 && Fib(20) == 6765;
    assert Fib(21) == 10946 && Fib(22) == 17711 && Fib(23) == 28657 && Fib(24) == 46368 && Fib(25) == 75025;
    assert Fib(26) == 121393 && Fib(27) == 196418 && Fib(28) == 317811 && Fib(29) == 514229 && Fib(30) == 832040;
    assert Fib(31) == 1346269 && Fib(32) == 2178309 && Fib(33) == 3524578 && Fib(34) == 5702887;
  }

  /** A code of length d needs a total frequency of at least Fib(d + 2). */
  lemma LongCodesNeedData(freq0: seq<nat>, codesize: seq<nat>, t: Tree, s: nat)
    requires HuffmanLengths(freq0, codesize, t) && s < NSYM && freq0[s] > 0
    ensures Sum(freq0) >= Fib(codesize[s] + 2)
  {
    hide Fib, Height, Sum, Feasible, Cost;
    assert s in LeafSet(t) && codesize[s] == Depth(t, s);
    DepthBelowHeight(t, s);
    FibMono(codesize[s] + 2, Height(t) + 2);
  }

  /** Too few symbols for a code of more than 32 bits. */
  lemma NoOverflow(freq0: seq<nat>, codesize: seq<nat>, t: Tree)
    requires HuffmanLengths(freq0, codesize, t) && Sum(freq0) < 9227465
    ensures Height(t) <= MAX_CLEN
  {
    hide Fib, Height, Sum, Feasible, Cost, LeafSet, Depth, Proper;
    if Height(t) > MAX_CLEN {
      FibThirtyFive();
      FibMono(35, Height(t) + 2);
    }
  }

  /** Before length limiting no prefix code for the same symbols is cheaper. */
  lemma NoBetterPrefixCode(freq0: seq<nat>, codesize: seq<nat>, t: Tree, codes: seq<seq<bool>>, n: nat)
    requires HuffmanLengths(freq0, codesize, t)
    requires PrefixCode(freq0, codes) && Fits(freq0, codes, n)
    ensures |Lengths(codes)| == |freq0| && Cost(freq0, codesize) <= Cost(freq0, Lengths(codes))
  {
    hide Cost, Feasible, Fib, Height, Sum;
    PrefixCodeFeasible(freq0, codes, n);
  }

  /** The counts with the pseudo-symbol 256 made to occur once. */
  function WithPseudo(freq: seq<nat>): (r: seq<nat>)
    requires |freq| == NSYM
    ensures |r| == NSYM
  {
    freq[256 := 1]
  }

  /** The Huffman code lengths for the counts, ties broken as the builder does. */
  ghost function CodeSizes(freq: seq<nat>): (r: seq<nat>)
    requires |freq| == NSYM
    ensures |r| == NSYM
  {
    StartOk(WithPseudo(freq));
    var f := FinalForest(WithPseudo(freq), StartForest(WithPseudo(freq)));
    if |f.codesize| == NSYM then f.codesize else seq(NSYM, i => 0)
  }

  ghost predicate PseudoOwned(f: Forest) {
    Sized(f) && f.owner[256] < NSYM && f.freq[f.owner[256]] > 0
  }

  lemma {:induction false} FinalIsHuffman(freq0: seq<nat>, f: Forest) returns (t: Tree)
    requires Building(freq0, f) && ForestOk(freq0, f) && PseudoOwned(f) && |freq0| == NSYM && freq0[256] > 0
    ensures HuffmanLengths(freq0, FinalForest(freq0, f).codesize, t)
    decreases |f.trees|
  {
    hide ForestOk, Building, HuffmanLengths, FinalForest, MergeForest, Leaves, Smallest, HasPair;
    if HasPair(f.freq) {
      var c1, c2 := SomePair(f.freq);
      FinalMerge(freq0, f, c1, c2);
      BuildingMerge(freq0, f, c1, c2);
      PseudoIsOwned(freq0, MergeForest(f, c1, c2));
      t := FinalIsHuffman(freq0, MergeForest(f, c1, c2));
    } else {
      FinalIs(freq0, f);
      var r := f.owner[256];
      forall i | 0 <= i < NSYM && i != r ensures f.freq[i] == 0 {
        if f.freq[i] > 0 { NoPairAlone(f.freq, r, i); }
      }
      BuildingEnd(freq0, f, r);
      t := f.trees[r];
    }
  }

  lemma PseudoIsOwned(freq0: seq<nat>, f: Forest)
    requires ForestOk(freq0, f) && freq0[256] > 0
    ensures PseudoOwned(f)
  {
    hide TreeOk, Sum;
  }

  /** The reference code lengths are those of a Huffman tree, optimal and of Fibonacci-bounded height. */
  lemma CodeSizesHuffman(freq: seq<nat>) returns (t: Tree)
    requires |freq| == NSYM
    ensures HuffmanLengths(WithPseudo(freq), CodeSizes(freq), t)
  {
    hide ForestOk, Building, HuffmanLengths, FinalForest, StartForest;
    var freq0 := WithPseudo(freq);
    BuildingStart(freq0);
    StartOk(freq0);
    PseudoIsOwned(freq0, StartForest(freq0));
    t := FinalIsHuffman(freq0, StartForest(freq0));
    LengthsSized(freq0, FinalForest(freq0, StartForest(freq0)).codesize, t);
  }

  lemma LengthsSized(freq0: seq<nat>, sizes: seq<nat>, t: Tree)
    requires HuffmanLengths(freq0, sizes, t)
    ensures |sizes| == NSYM
  {}

  /** Every search of the tree builder finds what it has to. */
  ghost predicate WithinLimit(freq: seq<nat>)
    requires |freq| == NSYM
  {
    StartOk(WithPseudo(freq));
    Selectable(WithPseudo(freq), StartForest(WithPseudo(freq)))
  }

  /** A total of at most the limit is enough for that. */
  lemma SmallTotal(freq: seq<nat>)
    requires |freq| == NSYM && Sum(WithPseudo(freq)) <= 1000000000
    ensures WithinLimit(freq)
  {
    hide Sum, Selectable, ForestOk;
    StartOk(WithPseudo(freq));
    TotalWithinLimit(WithPseudo(freq), StartForest(WithPseudo(freq)));
  }

  /** A symbol that occurs more often than the limit is too much, whatever the other counts. */
  lemma HugeCount(freq: seq<nat>, s: byte)
    requires |freq| == NSYM && freq[s] > 1000000000
    ensures !WithinLimit(freq)
  {
    hide Sum, Selectable, ForestOk;
    StartOk(WithPseudo(freq));
    TooFrequent(WithPseudo(freq), StartForest(WithPseudo(freq)), s, 256);
  }

  /** The code lengths that the builder reaches, be it stopped by the limit. */
  ghost function BuiltSizes(freq: seq<nat>): (r: seq<nat>)
    requires |freq| == NSYM
    ensures |r| == NSYM
  {
    StoppedSizes(WithPseudo(freq))
  }

  lemma BuiltIs(freq: seq<nat>, sizes: seq<nat>, t: Tree)
    requires |freq| == NSYM && StoppedLengths(WithPseudo(freq), sizes, t)
    ensures sizes == BuiltSizes(freq)
    ensures WithinLimit(freq) ==> HuffmanLengths(WithPseudo(freq), sizes, t)
  {
    hide Selectable, HuffmanLengths, FinalForest, ForestOk, Kraft, StoppedForest, StartForest;
  }

  /** Within the limit these are the Huffman code lengths. */
  lemma BuiltWithin(freq: seq<nat>)
    requires |freq| == NSYM && WithinLimit(freq)
    ensures BuiltSizes(freq) == CodeSizes(freq)
  {
    hide Selectable, FinalForest, ForestOk, StoppedForest, StartForest, PseudoLeads, AtLimit;
    var f := StoppedState(WithPseudo(freq));
  }

  lemma {:induction false} UseLess(a: seq<nat>, b: seq<nat>, k: nat)
    requires k <= |a| && k <= |b| && forall i :: 0 <= i < k && a[i] > 0 ==> b[i] > 0
    ensures NumUsed(a, k) <= NumUsed(b, k)
  {
    if k > 0 { UseLess(a, b, k - 1); }
  }

  lemma {:induction false} UseNone(a: seq<nat>, k: nat)
    requires k <= |a| && forall i :: 0 <= i < k ==> a[i] == 0
    ensures NumUsed(a, k) == 0
  {
    if k > 0 { UseNone(a, k - 1); }
  }

  lemma BuiltUse(freq: seq<nat>)
    requires |freq| == NSYM && NumUsed(freq, 256) <= 254
    ensures NumUsed(BuiltSizes(freq), NSYM) <= 255
    ensures forall s :: 0 <= s < NSYM && BuiltSizes(freq)[s] > 0 ==>
      WithPseudo(freq)[s] > 0 && BuiltSizes(freq)[256] > 0
  {
    hide StoppedSizes;
    SizedSymbols(WithPseudo(freq));
    UseLess(BuiltSizes(freq), WithPseudo(freq), NSYM);
    SameUse(WithPseudo(freq), freq, 256);
  }

  /** The histogram of these lengths is empty, or has a whole Kraft sum; beyond the limit that is more than one, or some
      symbol has no code. */
  lemma HistogramKraft(freq: seq<nat>, hist: seq<byte>)
    requires |freq| == NSYM && NumUsed(freq, 256) <= 254 && Counted(hist, BuiltSizes(freq), NSYM)
    requires forall s :: 0 <= s < NSYM ==> BuiltSizes(freq)[s] <= MAX_CLEN
    ensures if BuiltSizes(freq)[256] == 0 then NoLengths(hist) else Whole(hist, 32) && hist[BuiltSizes(freq)[256]] > 0
    ensures WithinLimit(freq) && BuiltSizes(freq)[256] > 0 ==> Sum(Shares(hist)) == Pow2(32)
    ensures !WithinLimit(freq) && Sum(Shares(hist)) == Pow2(32) ==>
      exists s: byte :: freq[s] > 0 && BuiltSizes(freq)[s] == 0
  {
    hide StoppedSizes, Sum, Pow2, LengthTerms, Shares, NumUsed, Histogram, Selectable, Whole;
    var sizes := BuiltSizes(freq);
    BuiltUse(freq);
    CountedKraft(hist, sizes);
    var k := SizesKraft(WithPseudo(freq));
    if k == 0 {
      UseNone(sizes, NSYM);
      SumNonneg(hist);
    } else {
      CountedWhole(hist, sizes, k);
      PseudoCounted(hist, sizes);
      OneWhole(k);
    }
  }

  lemma OneWhole(k: nat)
    requires k >= 1
    ensures k * Pow2(32) == Pow2(32) <==> k == 1
  {
    hide Pow2;
    Pow2Mono(0, 32);
    Pow2Step(0);
    if k > 1 {
      MulMono(2, k, Pow2(32));
    }
  }

  lemma PseudoCounted(hist: seq<byte>, sizes: seq<nat>)
    requires |sizes| == NSYM && Counted(hist, sizes, NSYM) && 0 < sizes[256] <= MAX_CLEN
    ensures hist[sizes[256]] > 0
  {
    hide Sum, Shares, LengthTerms, NumUsed;
    assert Histogram(sizes, NSYM, sizes[256]) == Histogram(sizes, 256, sizes[256]) + 1;
  }

  /** A symbol that occurs has no code, or the codes leave no room for the all-ones code. */
  ghost predicate Unusable(t: HuffTable, freq: seq<nat>)
    requires |freq| == NSYM && WellFormed(t) && Total(t.bits) <= 256
  {
    KraftUpTo(t.bits, 16) >= Pow2(16) || exists s: byte :: freq[s] > 0 && s !in t.huffval[..Total(t.bits)]
  }

  /** jpeg_gen_optimal_table. The counts are consumed. If every search of the tree builder finds what it has to, the
      table is good; otherwise it is unusable, or there is no table. */
  method GenOptimalTable(freq: array<nat>) returns (r: GenResult)
    requires freq.Length == NSYM
    requires 1 <= NumUsed(freq[..], 256) <= 254
    modifies freq
    ensures r.CodeLengthOverflow? <==> exists s :: 0 <= s < NSYM && BuiltSizes(old(freq[..]))[s] > 32
    ensures r.NoCode? <==> forall s: byte :: old(freq[..])[s] > 0 ==> old(freq[..])[s] > 1000000000
    ensures r.Generated? ==> FromSizes(r.table, BuiltSizes(old(freq[..])))
    ensures r.Generated? && WithinLimit(old(freq[..])) ==> GoodTable(r.table, old(freq[..]), CodeSizes(old(freq[..])))
    ensures r.Generated? && !WithinLimit(old(freq[..])) ==>
      WellFormed(r.table) && Total(r.table.bits) <= 256 && Unusable(r.table, old(freq[..]))
    ensures 9227465 > Sum(WithPseudo(old(freq[..]))) ==> r.Generated?
  {
    hide Sum, NumUsed, HuffmanLengths, StoppedLengths, WithinLimit, FinalForest, StartForest, Counted, Listed, Whole,
      Shares, KraftUpTo, Pow2, FirstIndex, Before, Height, Ranked, Limited, FromSizes, BuiltSizes, StoppedSizes,
      NoLengths, GoodTable, Unusable, CodeSizes;
    ghost var freqIn := freq[..];
    var codesize, others := new nat[NSYM](i => 0), new int[NSYM](i => -1);
    freq[256] := 1;
    ghost var freq0 := freq[..];
    assert freq0 == WithPseudo(freqIn);
    ghost var t := BuildCodeSizes(freq, codesize, others);
    ghost var sizes := codesize[..];
    BuiltIs(freqIn, sizes, t);
    BuiltUse(freqIn);
    NothingBuilt(freqIn);
    if WithinLimit(freqIn) {
      BuiltWithin(freqIn);
      LengthFacts(freqIn, freq0, sizes, t);
    }
    SmallBuilt(freqIn, sizes, t);
    var ok, bits := CountLengths(codesize);
    if !ok {
      assert exists s :: 0 <= s < NSYM && sizes[s] > MAX_CLEN;
      return CodeLengthOverflow;
    }
    ghost var hist := bits[..];
    HistogramKraft(freqIn, hist);
    SomeLength(hist, sizes[256]);
    LimitLengths(bits);
    ghost var limited := bits[..];
    ghost var top;
    ok, top := DropLongest(bits);
    if !ok {
      return NoCode;
    }
    ghost var all := bits[..];
    var huffval, p := ListSymbols(codesize);
    TableOutcome(freqIn, hist, limited, top, all, huffval[..], p);
    r := Generated(HuffTable(bits[..17], huffval[..]));
  }

  lemma SomeLength(hist: seq<byte>, l: nat)
    requires |hist| == 33
    ensures l < 33 && hist[l] > 0 ==> !NoLengths(hist)
  {}

  /** Without any code exactly if every symbol exceeds the limit. */
  lemma NothingBuilt(freq: seq<nat>)
    requires |freq| == NSYM
    ensures BuiltSizes(freq)[256] == 0 <==> forall s: byte :: freq[s] > 0 ==> freq[s] > 1000000000
    ensures BuiltSizes(freq)[256] == 0 ==> forall s :: 0 <= s < NSYM ==> BuiltSizes(freq)[s] == 0
  {
    hide StoppedSizes;
    NothingMerged(WithPseudo(freq));
    SizedSymbols(WithPseudo(freq));
    forall s: byte ensures WithPseudo(freq)[s] == freq[s] {}
  }

  lemma SmallBuilt(freq: seq<nat>, sizes: seq<nat>, t: Tree)
    requires |freq| == NSYM && 1 <= NumUsed(freq, 256) <= 254 && sizes == BuiltSizes(freq)
    requires WithinLimit(freq) ==> HuffmanLengths(WithPseudo(freq), sizes, t)
    ensures Sum(WithPseudo(freq)) < 9227465 ==> sizes[256] > 0 && forall s :: 0 <= s < NSYM ==> sizes[s] <= MAX_CLEN
  {
    hide Sum, NumUsed, HuffmanLengths, WithinLimit, BuiltSizes;
    if Sum(WithPseudo(freq)) < 9227465 {
      SmallTotal(freq);
      LengthFacts(freq, WithPseudo(freq), sizes, t);
    }
  }

  /** What the table is like, within the limit and beyond. */
  lemma TableOutcome(freq: seq<nat>, hist: seq<byte>, limited: seq<byte>, top: nat, all: seq<byte>, vals: seq<byte>,
                     p: nat)
    requires |freq| == NSYM && 1 <= NumUsed(freq, 256) <= 254 && BuiltSizes(freq)[256] > 0
    requires forall s :: 0 <= s < NSYM ==> BuiltSizes(freq)[s] <= MAX_CLEN
    requires |hist| == |limited| == 33
    requires Counted(hist, BuiltSizes(freq), NSYM) && Whole(hist, 32) && limited == Limited(hist, 32)
    requires Whole(limited, 16)
    requires top == TopUsed(limited, 16) && 1 <= top && limited[top] > 0 && all == limited[top := limited[top] - 1]
    requires |vals| == 256 && p <= 256 && Listed(vals, p, BuiltSizes(freq), 33, 0) && Ranked(vals, p, BuiltSizes(freq))
    ensures |all| == 33
    ensures FromSizes(HuffTable(all[..17], vals), BuiltSizes(freq))
    ensures WithinLimit(freq) ==> GoodTable(HuffTable(all[..17], vals), freq, CodeSizes(freq))
    ensures !WithinLimit(freq) ==> Total(all[..17]) <= 256 && Unusable(HuffTable(all[..17], vals), freq)
  {
    hide Sum, NumUsed, WithinLimit, Counted, Listed, Whole, Shares, KraftUpTo, Pow2, FirstIndex, Before, Ranked,
      Limited, FromSizes, BuiltSizes, CodeSizes, TopUsed, Total, HuffmanLengths, GoodTable;
    var sizes := BuiltSizes(freq);
    HistogramKraft(freq, hist);
    LimitedKraft(hist);
    DroppedIsIncomplete(limited, top);
    DroppedEnds(limited, all, top);
    CutTo17(all);
    BuiltUse(freq);
    CountedKraft(hist, sizes);
    RealUsed(sizes);
    ListedUse(vals, p, sizes);
    TableFromSizes(hist, all, vals, p, sizes);
    if WithinLimit(freq) {
      WithinUse(freq);
      TableIsGood(all, vals, p, freq, sizes);
    } else if Sum(Shares(hist)) == Pow2(32) {
      var s: byte :| freq[s] > 0 && sizes[s] == 0;
      assert s !in vals[..p];
    }
  }

  lemma LimitedKraft(hist: seq<byte>)
    requires Whole(hist, 32)
    ensures Sum(Limited(hist, 32)) == Sum(hist) && Sum(Shares(Limited(hist, 32))) == Sum(Shares(hist))
  {
    hide Sum, Shares, Pow2, Whole;
  }

  lemma RealUsed(sizes: seq<nat>)
    requires |sizes| == NSYM && sizes[256] > 0
    ensures NumUsed(sizes, NSYM) == NumUsed(sizes, 256) + 1
  {}

  /** Listed are the real symbols with a code. */
  lemma ListedUse(vals: seq<byte>, p: nat, sizes: seq<nat>)
    requires |sizes| == NSYM && |vals| == 256 && p <= 256 && Listed(vals, p, sizes, 33, 0)
    requires forall s :: 0 <= s < NSYM ==> sizes[s] <= MAX_CLEN
    ensures p == NumUsed(sizes, 256) && forall s: byte :: s in vals[..p] <==> sizes[s] > 0
  {
    hide Before, NumUsed;
    ListedDistinct(vals, p, sizes, 33, 0);
    DistinctSize(vals, p);
    UsedSymbolsSize(sizes, 256);
    forall s: byte ensures s in ValueSet(vals, p) <==> s in UsedSymbols(sizes, 256) {
      assert s in vals[..p] <==> s in ValueSet(vals, p);
      assert sizes[s] <= MAX_CLEN;
    }
    assert ValueSet(vals, p) == UsedSymbols(sizes, 256);
  }

  /** Within the limit every symbol that occurs has a code. */
  lemma WithinUse(freq: seq<nat>)
    requires |freq| == NSYM && 1 <= NumUsed(freq, 256) <= 254 && WithinLimit(freq)
    ensures BuiltSizes(freq) == CodeSizes(freq)
    ensures forall s :: 0 <= s < NSYM ==> (BuiltSizes(freq)[s] > 0 <==> WithPseudo(freq)[s] > 0)
    ensures NumUsed(BuiltSizes(freq), NSYM) == NumUsed(freq, 256) + 1
  {
    hide NumUsed, WithinLimit, BuiltSizes, CodeSizes, HuffmanLengths;
    BuiltWithin(freq);
    var t := CodeSizesHuffman(freq);
    LengthFacts(freq, WithPseudo(freq), CodeSizes(freq), t);
  }

  lemma TableFromSizes(hist: seq<byte>, all: seq<byte>, vals: seq<byte>, p: nat, sizes: seq<nat>)
    requires |sizes| == NSYM && Counted(hist, sizes, NSYM) && Whole(hist, 32) && Whole(Limited(hist, 32), 16)
    requires var b := Limited(hist, 32); var top := TopUsed(b, 16);
      b[top] > 0 && all == b[top := b[top] - 1]
    requires p == Total(all[..17]) && Ranked(vals, p, sizes)
    ensures FromSizes(HuffTable(all[..17], vals), sizes)
  {
    hide Counted, Limited, Ranked, TopUsed, Sum, Shares;
    assert all == Dropped(Limited(hist, 32));
    assert |all[..17]| == 17;
  }

  lemma {:induction false} FirstUsed(s: seq<nat>, k: nat) returns (i: nat)
    requires k <= |s| && NumUsed(s, k) > 0
    ensures i < k && s[i] > 0
  {
    if s[k - 1] > 0 {
      i := k - 1;
    } else {
      i := FirstUsed(s, k - 1);
    }
  }

  lemma LengthFacts(freqIn: seq<nat>, freq0: seq<nat>, sizes: seq<nat>, t: Tree)
    requires |freqIn| == NSYM && freq0 == WithPseudo(freqIn) && 1 <= NumUsed(freqIn, 256) <= 254
    requires HuffmanLengths(freq0, sizes, t)
    ensures |sizes| == NSYM && NumUsed(sizes, NSYM) <= 255 && NumUsed(sizes, NSYM) == NumUsed(freqIn, 256) + 1
    ensures forall s :: 0 <= s < NSYM ==> (sizes[s] > 0 <==> freq0[s] > 0)
    ensures (forall s :: 0 <= s < NSYM ==> sizes[s] <= MAX_CLEN) <==> Height(t) <= MAX_CLEN
    ensures Sum(freq0) < 9227465 ==> Height(t) <= MAX_CLEN
  {
    hide Sum, Height, Leaves, LeafSet, Depth, Proper, Cost, Feasible, Fib;
    var sym := FirstUsed(freqIn, 256);
    LengthsInUse(freq0, sizes, t, sym);
    ShortTree(freq0, sizes, t);
    if Sum(freq0) < 9227465 {
      NoOverflow(freq0, sizes, t);
    }
    SameUse(sizes, freqIn, 256);
  }

  lemma CountedFacts(bits: seq<byte>, freq0: seq<nat>, sizes: seq<nat>, t: Tree)
    requires HuffmanLengths(freq0, sizes, t) && |sizes| == NSYM && Height(t) <= MAX_CLEN
    requires forall s :: 0 <= s < NSYM ==> (sizes[s] > 0 <==> freq0[s] > 0)
    requires Counted(bits, sizes, NSYM) && NumUsed(sizes, NSYM) <= 255
    ensures Whole(bits, 32) && Sum(bits) == NumUsed(sizes, NSYM)
  {
    hide Sum, Height, Leaves, LeafSet, Depth, Proper, Cost, Feasible, Fib, NumUsed, Shares, Histogram, Pow2,
      LengthTerms;
    LengthsComplete(freq0, sizes, t);
    CountedKraft(bits, sizes);
    CountedWhole(bits, sizes, 1);
  }

  lemma DroppedEnds(bits: seq<byte>, all: seq<byte>, top: nat)
    requires Whole(bits, 16) && 1 <= top <= 16 && |bits| == 33 && bits[top] > 0 && all == bits[top := bits[top] - 1]
    ensures |all| == 33 && all[0] == 0 && forall l :: 17 <= l < 33 ==> all[l] == 0
  {
    hide Sum, Shares, Pow2;
  }

  lemma TableIsGood(all: seq<byte>, vals: seq<byte>, p: nat, freqIn: seq<nat>, sizes: seq<nat>)
    requires |all| == 33 && all[0] == 0 && (forall l :: 17 <= l < 33 ==> all[l] == 0) && Sum(Shares(all)) < Pow2(32)
    requires |freqIn| == NSYM && |sizes| == NSYM && Sum(all) == NumUsed(freqIn, 256) <= 254
    requires forall s :: 0 <= s < NSYM ==> (sizes[s] > 0 <==> WithPseudo(freqIn)[s] > 0)
    requires forall s :: 0 <= s < NSYM ==> sizes[s] <= MAX_CLEN
    requires |vals| == 256 && p <= 256 && Listed(vals, p, sizes, 33, 0)
    ensures GoodTable(HuffTable(all[..17], vals), freqIn, sizes) && p == Total(all[..17])
  {
    hide Sum, Shares, Pow2, KraftUpTo, FirstIndex, Before, NumUsed;
    CutTo17(all);
    ListedDistinct(vals, p, sizes, 33, 0);
    DistinctSize(vals, p);
    UsedSymbolsSize(freqIn, 256);
    ListedAreUsed(vals, p, freqIn, sizes);
  }

  lemma ListedAreUsed(vals: seq<byte>, p: nat, freqIn: seq<nat>, sizes: seq<nat>)
    requires |freqIn| == NSYM && |sizes| == NSYM && |vals| == 256 && p <= 256 && Listed(vals, p, sizes, 33, 0)
    requires forall s :: 0 <= s < NSYM ==> (sizes[s] > 0 <==> WithPseudo(freqIn)[s] > 0)
    requires forall s :: 0 <= s < NSYM ==> sizes[s] <= MAX_CLEN
    ensures forall s: byte :: s in vals[..p] <==> freqIn[s] > 0
    ensures ValueSet(vals, p) == UsedSymbols(freqIn, 256)
  {
    hide Before;
    forall s: byte ensures s in vals[..p] <==> freqIn[s] > 0 {
      assert sizes[s] <= MAX_CLEN;
      assert sizes[s] > 0 <==> WithPseudo(freqIn)[s] > 0;
    }
    forall s: byte ensures s in ValueSet(vals, p) <==> s in UsedSymbols(freqIn, 256) {
      assert s in vals[..p] <==> s in ValueSet(vals, p);
    }
  }
}
