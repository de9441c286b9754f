/** Expansion and validation of a Huffman table for the encoder (jchuff.c, jpeg_make_c_derived_tbl). */
module DerivedTables {
  import opened Bits
  import opened HuffmanTable

  const NUM_HUFF_TBLS := 4

  datatype TableError = NoHuffTable | BadHuffTable
  datatype TableResult = Derived(table: DerivedTable) | Rejected(error: TableError)

  /** The table slot exists and holds a table. */
  predicate Present(tables: seq<Option<HuffTable>>, tblno: int) {
    0 <= tblno < NUM_HUFF_TBLS && tblno < |tables| && tables[tblno].Some?
  }

  /** Figure C.1: the length of every code, in order; refuses more than 256 codes. */
  method MakeSizes(bits: seq<byte>) returns (ok: bool, huffsize: array<int>, lastp: nat)
    requires |bits| == 17
    ensures fresh(huffsize) && huffsize.Length == 257
    ensures ok <==> Total(bits) <= 256
    ensures ok ==> lastp == Total(bits) && huffsize[lastp] == 0
    ensures ok ==> forall q :: 0 <= q < lastp ==> huffsize[q] == SizeOf(bits, q)
  {
    hide FirstIndex, SizeOf;
    huffsize := new int[257];
    var p := 0;
    lastp := 0;
    FirstCodeStep(bits, 1);
    for l := 1 to 17
      invariant p == FirstIndex(bits, l) <= 256
      invariant FirstIndex(bits, l) <= Total(bits)
      invariant forall q :: 0 <= q < p ==> q < Total(bits) && huffsize[q] == SizeOf(bits, q)
    {
      var i := bits[l];
      FirstIndexMono(bits, l + 1, 17);
      FirstCodeStep(bits, l);
      if p + i > 256 {
        return false, huffsize, lastp;
      }
      while i > 0
        invariant 0 <= i <= bits[l] && p == FirstIndex(bits, l + 1) - i <= 256
        invariant forall q :: 0 <= q < p ==> q < Total(bits) && huffsize[q] == SizeOf(bits, q)
      {
        SizeUnique(bits, p, l);
        huffsize[p] := l;
        p := p + 1;
        i := i - 1;
      }
    }
    huffsize[p] := 0;
    ok, lastp := true, p;
  }

  /** Figure C.2: the codes themselves; refuses lengths that leave no room for a code other than all ones. */
  method MakeCodes(bits: seq<byte>, huffsize: array<int>, lastp: nat) returns (ok: bool, huffcode: array<int>)
    requires |bits| == 17 && huffsize.Length == 257 && lastp == Total(bits) <= 256 && huffsize[lastp] == 0
    requires forall q :: 0 <= q < lastp ==> huffsize[q] == SizeOf(bits, q)
    ensures fresh(huffcode) && huffcode.Length == 257
    ensures ok <==> KraftUpTo(bits, 16) < Pow2(16)
    ensures ok ==> forall q :: 0 <= q < lastp ==> huffcode[q] == CodeOf(bits, q)
  {
    hide FirstIndex, FirstCode, KraftUpTo, SizeOf, Pow2;
    huffcode := new int[257];
    var code, si, p := 0, huffsize[0], 0;
    if lastp > 0 { FirstUsedLength(bits); } else { NoCodes(bits); }
    while huffsize[p] != 0
      invariant p <= lastp
      invariant p < lastp ==> 1 <= si <= 16 && code == FirstCode(bits, si) && p == FirstIndex(bits, si)
      invariant p == lastp ==> KraftUpTo(bits, 16) < Pow2(16)
      invariant forall q :: 0 <= q < p ==> huffcode[q] == CodeOf(bits, q)
      decreases 17 - si
    {
      FirstCodeStep(bits, si);
      FirstIndexMono(bits, si + 1, 17);
      while huffsize[p] == si
        invariant FirstIndex(bits, si) <= p <= FirstIndex(bits, si + 1) <= lastp
        invariant code == FirstCode(bits, si) + (p - FirstIndex(bits, si))
        invariant forall q :: 0 <= q < p ==> huffcode[q] == CodeOf(bits, q)
        decreases lastp - p
      {
        SizeRange(bits, p);
        huffcode[p] := code;
        assert code == CodeOf(bits, p);
        p := p + 1;
        code := code + 1;
      }
      if p < FirstIndex(bits, si + 1) {
        SizeUnique(bits, p, si);
      }
      if code >= Pow2(si) {
        KraftFails(bits, si);
        return false, huffcode;
      }
      if p == lastp {
        KraftHolds(bits, si);
      } else if si == 16 {
        assert false;
      }
      code := 2 * code;
      si := si + 1;
    }
    SizesNonzero(bits, huffsize, lastp, p);
    ok := true;
  }

  lemma SizeRange(bits: seq<byte>, p: nat)
    requires |bits| == 17 && p < Total(bits)
    ensures 1 <= SizeOf(bits, p) <= 16
    ensures FirstIndex(bits, SizeOf(bits, p)) <= p < FirstIndex(bits, SizeOf(bits, p) + 1)
  {}

  lemma SizesNonzero(bits: seq<byte>, huffsize: array<int>, lastp: nat, p: nat)
    requires |bits| == 17 && huffsize.Length == 257 && lastp == Total(bits) <= 256 && p <= lastp
    requires forall q :: 0 <= q < lastp ==> huffsize[q] == SizeOf(bits, q)
    requires huffsize[p] == 0
    ensures p == lastp
  {}

  /** The first length in use is where the codes start. */
  lemma FirstUsedLength(bits: seq<byte>)
    requires |bits| == 17 && Total(bits) > 0
    ensures var l := SizeOf(bits, 0); 1 <= l <= 16 && FirstIndex(bits, l) == 0 && FirstCode(bits, l) == 0
  {
    hide FirstIndex, FirstCode;
    var l := SizeOf(bits, 0);
    FirstCodeStep(bits, 1);
    ZeroFirstCode(bits, l);
  }

  lemma {:induction false} ZeroFirstCode(bits: seq<byte>, l: nat)
    requires |bits| == 17 && 1 <= l <= 17 && FirstIndex(bits, l) == 0
    ensures FirstCode(bits, l) == 0 && KraftUpTo(bits, l - 1) == 0
  {
    if l > 1 {
      ZeroFirstCode(bits, l - 1);
    }
  }

  lemma NoCodes(bits: seq<byte>)
    requires |bits| == 17 && Total(bits) == 0
    ensures KraftUpTo(bits, 16) < Pow2(16)
  {
    ZeroFirstCode(bits, 17);
  }

  /** Validates the table in slot tblno and expands it; succeeds exactly on acceptable tables. */
  method MakeDerivedTable(tables: seq<Option<HuffTable>>, isDC: bool, tblno: int) returns (r: TableResult)
    requires |tables| == NUM_HUFF_TBLS
    requires forall i :: 0 <= i < |tables| && tables[i].Some? ==> WellFormed(tables[i].value)
    ensures r.Derived? <==> Present(tables, tblno) && Acceptable(tables[tblno].value, isDC)
    ensures r.Derived? ==> DerivedFrom(r.table, tables[tblno].value)
    ensures r.Rejected? ==> r.error == if Present(tables, tblno) then BadHuffTable else NoHuffTable
  {
    if !(0 <= tblno < NUM_HUFF_TBLS) || tables[tblno].None? {
      return Rejected(NoHuffTable);
    }
    var htbl := tables[tblno].value;
    var ok, huffsize, lastp := MakeSizes(htbl.bits);
    if !ok {
      return Rejected(BadHuffTable);
    }
    var huffcode;
    ok, huffcode := MakeCodes(htbl.bits, huffsize, lastp);
    if !ok {
      return Rejected(BadHuffTable);
    }
    r := FillTable(htbl, isDC, huffsize, huffcode, lastp);
  }

  /** The first p symbols are distinct and in range, and the tables hold their codes and lengths and nothing else. */
  ghost predicate Placed(t: HuffTable, top: nat, p: nat, ehufco: seq<nat>, ehufsi: seq<nat>)
    requires WellFormed(t) && p <= Total(t.bits) <= 256
  {
    && |ehufco| == |ehufsi| == 256 && Distinct(t.huffval, p)
    && (forall s :: 0 <= s < 256 ==> (ehufsi[s] != 0 <==> s in t.huffval[..p]))
    && (forall q :: 0 <= q < p ==> t.huffval[q] <= top)
    && (forall q :: 0 <= q < p ==>
      ehufsi[t.huffval[q]] == SizeOf(t.bits, q) && ehufco[t.huffval[q]] == CodeOf(t.bits, q))
  }

  lemma NothingPlaced(t: HuffTable, top: nat, ehufco: seq<nat>, ehufsi: seq<nat>)
    requires WellFormed(t) && Total(t.bits) <= 256 && |ehufco| == |ehufsi| == 256
    requires forall s :: 0 <= s < 256 ==> ehufsi[s] == 0
    ensures Placed(t, top, 0, ehufco, ehufsi)
  {}

  lemma PlacedNext(t: HuffTable, top: nat, p: nat, ehufco: seq<nat>, ehufsi: seq<nat>)
    requires WellFormed(t) && p < Total(t.bits) <= 256 && Placed(t, top, p, ehufco, ehufsi)
    requires t.huffval[p] <= top && ehufsi[t.huffval[p]] == 0
    ensures var i := t.huffval[p];
      Placed(t, top, p + 1, ehufco[i := CodeOf(t.bits, p)], ehufsi[i := SizeOf(t.bits, p)])
  {
    hide FirstIndex, FirstCode, KraftUpTo, Pow2, SizeOf, CodeOf;
    var i := t.huffval[p];
    assert t.huffval[..p + 1] == t.huffval[..p] + [i];
    forall q | 0 <= q < p ensures t.huffval[q] != i { assert t.huffval[q] in t.huffval[..p]; }
  }

  lemma Misplaced(t: HuffTable, isDC: bool, p: nat, ehufco: seq<nat>, ehufsi: seq<nat>)
    requires WellFormed(t) && p < Total(t.bits) <= 256 && Placed(t, MaxSymbol(isDC), p, ehufco, ehufsi)
    requires t.huffval[p] > MaxSymbol(isDC) || ehufsi[t.huffval[p]] != 0
    ensures !Acceptable(t, isDC)
  {
    hide FirstIndex, FirstCode, KraftUpTo, Pow2, SizeOf, CodeOf;
    if ehufsi[t.huffval[p]] != 0 {
      var q :| 0 <= q < p && t.huffval[q] == t.huffval[p];
    }
  }

  lemma AllPlaced(t: HuffTable, isDC: bool, ehufco: seq<nat>, ehufsi: seq<nat>)
    requires WellFormed(t) && Total(t.bits) <= 256 && KraftUpTo(t.bits, 16) < Pow2(16)
    requires Placed(t, MaxSymbol(isDC), Total(t.bits), ehufco, ehufsi)
    ensures Acceptable(t, isDC) && DerivedFrom(DerivedTable(ehufco, ehufsi), t)
    ensures isDC ==> forall q :: 0 <= q < Total(t.bits) ==> t.huffval[q] <= 15
  {
    hide FirstIndex, FirstCode, KraftUpTo, Pow2, SizeOf, CodeOf;
  }

  /** Figure C.3: codes and lengths by symbol; refuses out-of-range and repeated symbols. */
  method FillTable(htbl: HuffTable, isDC: bool, huffsize: array<int>, huffcode: array<int>, lastp: nat)
    returns (r: TableResult)
    requires WellFormed(htbl) && huffsize.Length == huffcode.Length == 257
    requires lastp == Total(htbl.bits) <= 256 && KraftUpTo(htbl.bits, 16) < Pow2(16)
    requires forall q :: 0 <= q < lastp ==> huffsize[q] == SizeOf(htbl.bits, q) && huffcode[q] == CodeOf(htbl.bits, q)
    ensures r.Derived? <==> Acceptable(htbl, isDC)
    ensures r.Derived? ==> DerivedFrom(r.table, htbl)
    ensures r.Derived? && isDC ==> forall q :: 0 <= q < lastp ==> htbl.huffval[q] <= 15
    ensures r.Rejected? ==> r.error == BadHuffTable
  {
    hide FirstIndex, FirstCode, KraftUpTo, Pow2, SizeOf, CodeOf, Acceptable, DerivedFrom, Placed;
    var ehufco, ehufsi := new nat[256], new nat[256](i => 0);
    var maxsymbol := if isDC then 15 else 255;
    NothingPlaced(htbl, maxsymbol, ehufco[..], ehufsi[..]);
    for p := 0 to lastp
      invariant Placed(htbl, maxsymbol, p, ehufco[..], ehufsi[..])
    {
      var i := htbl.huffval[p];
      if i > maxsymbol || ehufsi[i] != 0 {
        Misplaced(htbl, isDC, p, ehufco[..], ehufsi[..]);
        return Rejected(BadHuffTable);
      }
      PlacedNext(htbl, maxsymbol, p, ehufco[..], ehufsi[..]);
      ehufco[i] := huffcode[p];
      ehufsi[i] := huffsize[p];
    }
    AllPlaced(htbl, isDC, ehufco[..], ehufsi[..]);
    r := Derived(DerivedTable(ehufco[..], ehufsi[..]));
  }
}
