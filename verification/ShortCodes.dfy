/** When no Huffman code is longer than 16 bits, limiting and dropping change nothing for real symbols: the generated
    table has the Huffman code lengths themselves. */
module ShortCodes {
  import opened Bits
  import opened Sums
  import opened HuffmanTable
  import opened HuffmanOptimality
  import opened HuffmanForest
  import opened HuffmanBuilder
  import opened LengthLimit
  import opened StoppedForests
  import opened OptimalTable
  import opened PrefixCodes
  import opened PseudoSymbols

  lemma {:induction false} HistogramNone(codesize: seq<nat>, k: nat, l: nat)
    requires k <= |codesize|
    ensures Histogram(codesize, k, l) == 0 <==> forall s :: 0 <= s < k ==> codesize[s] != l
  {
    if k > 0 { HistogramNone(codesize, k - 1, l); }
  }

  /** The code of 256 is a longest one. */
  lemma LongestIsPseudo(freq: seq<nat>, s: nat)
    requires |freq| == NSYM && s < NSYM
    ensures CodeSizes(freq)[s] <= CodeSizes(freq)[256]
  {
    hide FinalForest, StartForest, ForestOk;
    PseudoLongest(WithPseudo(freq), s);
  }

  /** So the longest length in use is that of 256. */
  lemma TopIsPseudo(freq: seq<nat>, hist: seq<byte>)
    requires |freq| == NSYM && Counted(hist, CodeSizes(freq), NSYM) && Whole(hist, 16)
    requires forall s :: 0 <= s < NSYM ==> CodeSizes(freq)[s] <= 16
    ensures TopUsed(hist, 16) == CodeSizes(freq)[256] > 0
  {
    hide CodeSizes, Sum, Shares, Pow2, Histogram, TopUsed, LengthTerms;
    var sizes := CodeSizes(freq);
    SomeCode(hist);
    var k := TopUsed(hist, 16);
    HistogramNone(sizes, NSYM, k);
    var s :| 0 <= s < NSYM && sizes[s] == k;
    LongestIsPseudo(freq, s);
    HistogramNone(sizes, NSYM, sizes[256]);
  }

  /** What is dropped is the code of 256: the table counts the real symbols of each length. */
  lemma RealCounts(freq: seq<nat>, hist: seq<byte>, l: nat)
    requires |freq| == NSYM && Counted(hist, CodeSizes(freq), NSYM) && Whole(hist, 32) && 1 <= l <= 16
    requires forall s :: 0 <= s < NSYM ==> CodeSizes(freq)[s] <= 16
    ensures Dropped(Limited(hist, 32))[l] == Histogram(CodeSizes(freq), 256, l)
  {
    hide CodeSizes, Sum, Shares, Pow2, TopUsed, LengthTerms, Limited;
    var sizes := CodeSizes(freq);
    NothingLong(hist, sizes);
    LimitedShort(hist, 32);
    TopIsPseudo(freq, hist);
    assert Histogram(sizes, NSYM, l) == Histogram(sizes, 256, l) + if sizes[256] == l then 1 else 0;
  }

  lemma NothingLong(hist: seq<byte>, sizes: seq<nat>)
    requires |sizes| == NSYM && Counted(hist, sizes, NSYM) && Whole(hist, 32)
    requires forall s :: 0 <= s < NSYM ==> sizes[s] <= 16
    ensures Whole(hist, 16)
  {
    hide Sum, Shares, Pow2, LengthTerms;
    forall l | 16 < l <= 32 ensures hist[l] == 0 { HistogramNone(sizes, NSYM, l); }
  }

  lemma {:induction false} FirstIndexRank(bits: seq<byte>, sizes: seq<nat>, l: nat)
    requires |bits| == 17 && |sizes| >= 256 && 1 <= l <= 17
    requires forall k :: 1 <= k <= 16 ==> bits[k] == Histogram(sizes, 256, k)
    ensures FirstIndex(bits, l) == ShortSymbols(sizes, l - 1)
  {
    hide Histogram;
    if l > 1 { FirstIndexRank(bits, sizes, l - 1); }
  }

  lemma FromSizesIs(t: HuffTable, sizes: seq<nat>)
    requires |sizes| == NSYM && FromSizes(t, sizes)
    ensures |t.bits| == 17 && Total(t.bits) <= |t.huffval|
    ensures forall p :: 0 <= p < Total(t.bits) ==> 0 < sizes[t.huffval[p]]
  {
    hide Counted, Whole, Limited, Dropped, ShortSymbols;
  }

  /** If no code is longer than 16 bits, every symbol keeps its Huffman code length in the table. */
  lemma LengthsKept(t: HuffTable, freq: seq<nat>, p: nat)
    requires |freq| == NSYM && FromSizes(t, CodeSizes(freq)) && p < Total(t.bits) <= |t.huffval|
    requires forall s :: 0 <= s < NSYM ==> CodeSizes(freq)[s] <= 16
    ensures SizeOf(t.bits, p) == CodeSizes(freq)[t.huffval[p]]
  {
    hide CodeSizes, SizeOf, Histogram, Counted, Limited, Dropped, ShortSymbols, FirstIndex, Total, Sum, Shares, Pow2;
    var sizes := CodeSizes(freq);
    FromSizesIs(t, sizes);
    var hist: seq<byte> :| Counted(hist, sizes, NSYM) && Whole(hist, 32) && Whole(Limited(hist, 32), 16)
      && t.bits == Dropped(Limited(hist, 32))[..17];
    forall k | 1 <= k <= 16 ensures t.bits[k] == Histogram(sizes, 256, k) { RealCounts(freq, hist, k); }
    var l := sizes[t.huffval[p]];
    RankBounds(sizes, t.huffval[p]);
    FirstIndexRank(t.bits, sizes, l);
    FirstIndexRank(t.bits, sizes, l + 1);
    SizeUnique(t.bits, p, l);
  }

  // ---- the code lengths are optimal ----

  /** Hence the generated table is the best there is: no prefix code for the symbols that occur and one spare code word
      takes fewer bits than the table together with the code word it gives up. */
  lemma TableOptimal(t: HuffTable, freq: seq<nat>, codes: seq<seq<bool>>, n: nat)
    requires |freq| == NSYM && FromSizes(t, CodeSizes(freq))
    requires forall s :: 0 <= s < NSYM ==> CodeSizes(freq)[s] <= 16
    requires PrefixCode(WithPseudo(freq), codes) && Fits(WithPseudo(freq), codes, n)
    ensures |t.bits| == 17 && Total(t.bits) <= |t.huffval|
    ensures forall p :: 0 <= p < Total(t.bits) ==> SizeOf(t.bits, p) == CodeSizes(freq)[t.huffval[p]]
    ensures |Lengths(codes)| == NSYM
    ensures Cost(WithPseudo(freq), CodeSizes(freq)) <= Cost(WithPseudo(freq), Lengths(codes))
  {
    hide CodeSizes, FromSizes, HuffmanLengths, PrefixCode, Fits, SizeOf, Cost, Lengths;
    FromSizesIs(t, CodeSizes(freq));
    forall p | 0 <= p < Total(t.bits)
      ensures SizeOf(t.bits, p) == CodeSizes(freq)[t.huffval[p]]
    {
      LengthsKept(t, freq, p);
    }
    var tree := CodeSizesHuffman(freq);
    NoBetterPrefixCode(WithPseudo(freq), CodeSizes(freq), tree, codes, n);
  }

  // ---- frequent symbols ----

  /** Of two symbols that occur, the more frequent one never has the longer Huffman code. */
  lemma FrequentShorter(freq0: seq<nat>, sizes: seq<nat>, t: Tree, a: nat, b: nat)
    requires HuffmanLengths(freq0, sizes, t) && a < NSYM && b < NSYM && freq0[a] > freq0[b] > 0
    ensures sizes[a] <= sizes[b]
  {
    hide Cost, Kraft, Fib, Sum, Height, Depth, LeafSet, Proper;
    if sizes[a] > sizes[b] {
      var n := Height(t);
      DepthsFeasible(freq0, sizes, t);
      SwapCheaper(freq0, sizes, n, b, a);
      SwapGains(freq0, sizes, a, b);
    }
  }

  lemma DepthsFeasible(freq0: seq<nat>, sizes: seq<nat>, t: Tree)
    requires DepthsOf(freq0, sizes, t)
    ensures Feasible(freq0, sizes, Height(t))
  {
    hide Kraft, Height, Depth, Proper;
    DepthsComplete(freq0, sizes, t, Height(t));
    forall i | 0 <= i < |freq0| && freq0[i] > 0 ensures sizes[i] <= Height(t) { DepthBelowHeight(t, i); }
  }

  lemma SwapGains(freq: seq<nat>, len: seq<nat>, a: nat, b: nat)
    requires |freq| == |len| && a < |freq| && b < |freq| && freq[a] > freq[b] && len[a] > len[b]
    ensures Cost(freq, Swapped(len, b, a)) < Cost(freq, len)
  {
    hide Cost;
    var l1 := len[b := len[a]];
    CostUpdate(freq, len, b, len[a]);
    CostUpdate(freq, l1, a, len[b]);
    StrictExchange(freq[b], freq[a], len[b], len[a]);
  }

  lemma StrictExchange(f1: int, f2: int, l1: int, l2: int)
    requires f1 < f2 && l1 < l2
    ensures f1 * l2 + f2 * l1 < f1 * l1 + f2 * l2
  {
    MulAtLeast(f2 - f1, l2 - l1);
    assert (f2 - f1) * (l2 - l1) == f2 * l2 - f2 * l1 - f1 * l2 + f1 * l1;
  }

  /** The same for the reference code lengths. */
  lemma FrequentSizes(freq: seq<nat>, a: byte, b: byte)
    requires |freq| == NSYM && freq[a] > freq[b] > 0
    ensures CodeSizes(freq)[a] <= CodeSizes(freq)[b]
  {
    hide CodeSizes, HuffmanLengths;
    var t := CodeSizesHuffman(freq);
    FrequentShorter(WithPseudo(freq), CodeSizes(freq), t, a, b);
  }

  /** In the table the more frequent symbol can have the longer code only if their Huffman codes are equally long and it
      is the larger number. */
  lemma FrequentInTable(t: HuffTable, freq: seq<nat>, p: nat, q: nat)
    requires |freq| == NSYM && GoodTable(t, freq, CodeSizes(freq)) && p < Total(t.bits) && q < Total(t.bits)
    requires freq[t.huffval[p]] > freq[t.huffval[q]] > 0 && SizeOf(t.bits, p) > SizeOf(t.bits, q)
    ensures CodeSizes(freq)[t.huffval[p]] == CodeSizes(freq)[t.huffval[q]] && t.huffval[q] < t.huffval[p]
  {
    hide CodeSizes, SizeOf, KraftUpTo, NumUsed;
    FrequentSizes(freq, t.huffval[p], t.huffval[q]);
    if p <= q {
      SizesMono(t.bits, p, q);
    } else {
      assert Before(CodeSizes(freq), t.huffval[q], t.huffval[p]);
    }
  }

  /** If no Huffman code is longer than 16 bits it never has. */
  lemma FrequentKept(t: HuffTable, freq: seq<nat>, p: nat, q: nat)
    requires |freq| == NSYM && FromSizes(t, CodeSizes(freq)) && p < Total(t.bits) <= |t.huffval| && q < Total(t.bits)
    requires forall s :: 0 <= s < NSYM ==> CodeSizes(freq)[s] <= 16
    requires freq[t.huffval[p]] > freq[t.huffval[q]] > 0
    ensures SizeOf(t.bits, p) <= SizeOf(t.bits, q)
  {
    hide CodeSizes, SizeOf, FromSizes;
    FrequentSizes(freq, t.huffval[p], t.huffval[q]);
    LengthsKept(t, freq, p);
    LengthsKept(t, freq, q);
  }
}
