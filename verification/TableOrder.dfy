/** The generated table as a function of the counts, and exactly when it gives frequent symbols short codes. */
module TableOrders {
  import opened Bits
  import opened Sums
  import opened HuffmanTable
  import opened HuffmanForest
  import opened HuffmanBuilder
  import opened LengthLimit
  import opened StoppedForests
  import opened OptimalTable
  import opened ShortCodes

  /** What the table generator needs of the counts: some symbols, but not too many, and no code that is too long. */
  ghost predicate Tabulable(freq: seq<nat>) {
    && |freq| == NSYM && 1 <= NumUsed(freq, 256) <= 254
    && forall s :: 0 <= s < NSYM ==> CodeSizes(freq)[s] <= MAX_CLEN
  }

  /** The length counts as a sequence. */
  ghost function LengthCounts(sizes: seq<nat>): (r: seq<byte>)
    requires |sizes| == NSYM
    ensures |r| == 33
  {
    seq(33, l requires 0 <= l < 33 => var n := Histogram(sizes, NSYM, l); if 1 <= l && n <= 255 then n else 0)
  }

  lemma {:induction false} CountAll(sizes: seq<nat>, k: nat) returns (bits: seq<byte>)
    requires |sizes| == NSYM && k <= NSYM && NumUsed(sizes, NSYM) <= 255
    requires forall s :: 0 <= s < NSYM ==> sizes[s] <= MAX_CLEN
    ensures Counted(bits, sizes, k)
  {
    hide Counted, NumUsed, Sum;
    if k == 0 {
      bits := seq(33, l => 0);
      CountedStart(bits, sizes);
    } else {
      bits := CountAll(sizes, k - 1);
      if sizes[k - 1] == 0 {
        CountedSkip(bits, sizes, k - 1);
      } else {
        NoWrap(bits, sizes, k - 1);
        CountedNext(bits, sizes, k - 1);
        bits := bits[sizes[k - 1] := bits[sizes[k - 1]] + 1];
      }
    }
  }

  lemma CountedIs(bits: seq<byte>, sizes: seq<nat>)
    requires |sizes| == NSYM && Counted(bits, sizes, NSYM)
    ensures bits == LengthCounts(sizes)
  {
    hide Sum, NumUsed, Shares, LengthTerms, Histogram;
  }

  /** The Huffman code lengths of such counts make a complete code. */
  lemma CountsComplete(freq: seq<nat>)
    requires Tabulable(freq)
    ensures Whole(LengthCounts(CodeSizes(freq)), 32) && Counted(LengthCounts(CodeSizes(freq)), CodeSizes(freq), NSYM)
  {
    hide CodeSizes, NumUsed, HuffmanLengths, Counted, Whole, LengthCounts;
    var sizes := CodeSizes(freq);
    var t := CodeSizesHuffman(freq);
    LengthFacts(freq, WithPseudo(freq), sizes, t);
    var bits := CountAll(sizes, NSYM);
    CountedFacts(bits, WithPseudo(freq), sizes, t);
    CountedIs(bits, sizes);
  }

  /** The BITS of the table. */
  ghost function TableBits(freq: seq<nat>): (r: seq<byte>)
    requires Tabulable(freq)
    ensures |r| == 17
  {
    CountsComplete(freq);
    Dropped(Limited(LengthCounts(CodeSizes(freq)), 32))[..17]
  }

  /** The table is determined by the counts: its BITS are TableBits, and each symbol that occurs stands at its place. */
  lemma TableDetermined(t: HuffTable, freq: seq<nat>)
    requires Tabulable(freq) && GoodTable(t, freq, CodeSizes(freq)) && FromSizes(t, CodeSizes(freq))
    ensures t.bits == TableBits(freq)
    ensures forall s: byte :: freq[s] > 0 ==>
      CodeSizes(freq)[s] > 0 && Rank(CodeSizes(freq), s) < Total(t.bits) && t.huffval[Rank(CodeSizes(freq), s)] == s
  {
    hide CodeSizes, Counted, Limited, Dropped, LengthCounts, Rank, KraftUpTo, NumUsed, Total, Sum, Shares, Pow2;
    var sizes := CodeSizes(freq);
    GoodSized(t, freq, sizes);
    var hist: seq<byte> :| Counted(hist, sizes, NSYM) && Whole(hist, 32) && Whole(Limited(hist, 32), 16)
      && t.bits == Dropped(Limited(hist, 32))[..17];
    CountedIs(hist, sizes);
    forall s: byte | freq[s] > 0
      ensures sizes[s] > 0 && Rank(sizes, s) < Total(t.bits) && t.huffval[Rank(sizes, s)] == s
    {
      var p := Listing(t, freq, sizes, s);
      PlaceIs(t, sizes, p);
    }
  }

  lemma Listing(t: HuffTable, freq: seq<nat>, sizes: seq<nat>, s: byte) returns (p: nat)
    requires |freq| == NSYM && |sizes| == NSYM && GoodTable(t, freq, sizes) && freq[s] > 0
    ensures p < Total(t.bits) <= |t.huffval| && t.huffval[p] == s
  {
    hide KraftUpTo, NumUsed, Before;
    assert s in t.huffval[..Total(t.bits)];
    p :| 0 <= p < Total(t.bits) && t.huffval[p] == s;
  }

  /** No more frequent symbol has a longer code. */
  ghost predicate Favours(t: HuffTable, freq: seq<nat>)
    requires |t.bits| == 17 && Total(t.bits) <= |t.huffval| && |freq| == NSYM
  {
    forall p: nat, q: nat :: p < Total(t.bits) && q < Total(t.bits) && freq[t.huffval[p]] > freq[t.huffval[q]] > 0 ==>
      SizeOf(t.bits, p) <= SizeOf(t.bits, q)
  }

  /** Places i and j, in this order, have codes of different lengths. */
  ghost predicate Apart(bits: seq<byte>, i: nat, j: nat)
    requires |bits| == 17
  {
    exists m: nat :: 1 <= m <= 17 && i < FirstIndex(bits, m) <= j
  }

  /** Where limiting separates symbols of equal Huffman code length, the ones listed first are at least as frequent. */
  ghost predicate SplitsInOrder(freq: seq<nat>)
    requires Tabulable(freq)
  {
    var sizes := CodeSizes(freq);
    forall a: byte, b: byte ::
      sizes[a] > 0 && sizes[a] == sizes[b] && Apart(TableBits(freq), Rank(sizes, a), Rank(sizes, b)) ==>
        freq[a] >= freq[b]
  }

  lemma ApartIs(bits: seq<byte>, p: nat, q: nat)
    requires |bits| == 17 && p < Total(bits) && q < Total(bits)
    ensures Apart(bits, p, q) <==> SizeOf(bits, p) < SizeOf(bits, q)
  {
    hide FirstIndex, SizeFrom;
    var a, b := SizeOf(bits, p), SizeOf(bits, q);
    FirstCodeStep(bits, a);
    FirstCodeStep(bits, b);
    if a < b {
      FirstIndexMono(bits, a + 1, b);
      assert p < FirstIndex(bits, b) <= q;
    }
    if Apart(bits, p, q) {
      var m: nat :| 1 <= m <= 17 && p < FirstIndex(bits, m) <= q;
      if m <= a { FirstIndexMono(bits, m, a); }
      if b < m { FirstIndexMono(bits, b + 1, m); }
    }
  }

  /** The table for some counts favours frequent symbols if and only if limiting splits lengths in order. */
  lemma FavoursExactly(t: HuffTable, freq: seq<nat>)
    requires Tabulable(freq) && GoodTable(t, freq, CodeSizes(freq)) && FromSizes(t, CodeSizes(freq))
    ensures Total(t.bits) <= |t.huffval| && (Favours(t, freq) <==> SplitsInOrder(freq))
  {
    hide CodeSizes, NumUsed, GoodTable, FromSizes, Rank, SizeOf, FirstIndex, TableBits, Apart;
    var sizes := CodeSizes(freq);
    TableDetermined(t, freq);
    GoodSized(t, freq, sizes);
    if Favours(t, freq) {
      forall a: byte, b: byte |
        sizes[a] > 0 && sizes[a] == sizes[b] && Apart(TableBits(freq), Rank(sizes, a), Rank(sizes, b))
        ensures freq[a] >= freq[b]
      {
        UsedSized(freq, a);
        UsedSized(freq, b);
        ApartIs(t.bits, Rank(sizes, a), Rank(sizes, b));
      }
    } else {
      var p: nat, q: nat :| p < Total(t.bits) && q < Total(t.bits)
        && freq[t.huffval[p]] > freq[t.huffval[q]] > 0 && SizeOf(t.bits, p) > SizeOf(t.bits, q);
      FrequentInTable(t, freq, p, q);
      PlaceIs(t, sizes, p);
      PlaceIs(t, sizes, q);
      ApartIs(t.bits, q, p);
    }
  }

  lemma GoodSized(t: HuffTable, freq: seq<nat>, sizes: seq<nat>)
    requires |freq| == NSYM && |sizes| == NSYM && GoodTable(t, freq, sizes)
    ensures |t.bits| == 17 && Total(t.bits) <= 254 && |t.huffval| == 256
  {
    hide KraftUpTo, NumUsed, Before;
  }

  lemma PlaceIs(t: HuffTable, sizes: seq<nat>, p: nat)
    requires |sizes| == NSYM && FromSizes(t, sizes) && p < Total(t.bits)
    ensures p < |t.huffval| && sizes[t.huffval[p]] > 0 && p == Rank(sizes, t.huffval[p])
  {
    hide Counted, Whole, Limited, Dropped, Rank;
  }

  /** The symbols that occur are those with a Huffman code. */
  lemma UsedSized(freq: seq<nat>, s: byte)
    requires Tabulable(freq)
    ensures CodeSizes(freq)[s] > 0 <==> freq[s] > 0
  {
    hide CodeSizes, NumUsed, HuffmanLengths;
    var t := CodeSizesHuffman(freq);
    LengthFacts(freq, WithPseudo(freq), CodeSizes(freq), t);
    assert WithPseudo(freq)[s] == freq[s];
  }
}
