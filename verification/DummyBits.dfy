/** The bits that a block takes, and for which tables the dummy block is the cheapest one. */
module DummyBits {
  import opened Bits
  import opened HuffmanTable
  import opened ZigzagScan
  import opened Symbols
  import opened Emissions
  import opened BlockDecoder
  import opened Pictures

  const NEVER: nat := 1000000  // more bits than any block takes

  function Least(a: nat, b: nat): nat {
    if a <= b then a else b
  }

  /** A symbol with its additional bits. */
  function SymbolCost(d: DerivedTable, sym: nat, extra: nat): nat
    requires |d.ehufsi| == 256 && sym < 256
  {
    if d.ehufsi[sym] > 0 then d.ehufsi[sym] + extra else NEVER
  }

  /** The cheapest nonzero coefficient of at most n bits after a run of r zeros. */
  function CoefCost(d: DerivedTable, r: nat, n: nat): nat
    requires |d.ehufsi| == 256 && r <= 15 && 1 <= n <= MAX_COEF_BITS
  {
    var c := SymbolCost(d, 16 * r + n, n);
    if n == 1 then c else Least(CoefCost(d, r, n - 1), c)
  }

  /** The cheapest way to code the coefficients from k on, after r zeros, if the one at k and the last are not zero. */
  function NonzeroCost(d: DerivedTable, k: nat, r: nat): nat
    requires |d.ehufsi| == 256 && 1 <= k <= 63
    decreases 64 - k, 0, r
  {
    if r > 15 then SymbolCost(d, ZRL, 0) + NonzeroCost(d, k, r - 16)
    else CoefCost(d, r, MAX_COEF_BITS) + if k == 63 then 0 else FullCost(d, k + 1, 0)
  }

  /** And if only the last one has to be nonzero. */
  function FullCost(d: DerivedTable, k: nat, r: nat): nat
    requires |d.ehufsi| == 256 && 1 <= k <= 63
    decreases 64 - k, 1, r
  {
    var c := NonzeroCost(d, k, r);
    if k == 63 then c else Least(FullCost(d, k + 1, r + 1), c)
  }

  lemma CostIs(d: DerivedTable, k: nat, r: nat)
    requires |d.ehufsi| == 256 && 1 <= k <= 63
    ensures NonzeroCost(d, k, r)
      == if r > 15 then SymbolCost(d, ZRL, 0) + NonzeroCost(d, k, r - 16)
         else CoefCost(d, r, MAX_COEF_BITS) + if k == 63 then 0 else FullCost(d, k + 1, 0)
    ensures FullCost(d, k, r)
      == if k == 63 then NonzeroCost(d, k, r) else Least(FullCost(d, k + 1, r + 1), NonzeroCost(d, k, r))
  {}

  lemma {:induction false} CoefCostLeast(d: DerivedTable, r: nat, m: nat, n: nat)
    requires |d.ehufsi| == 256 && r <= 15 && 1 <= m <= n <= MAX_COEF_BITS
    ensures CoefCost(d, r, n) <= SymbolCost(d, 16 * r + m, m)
  {
    if m < n { CoefCostLeast(d, r, m, n - 1); }
  }

  lemma {:induction false} CoefCostReached(d: DerivedTable, r: nat, n: nat) returns (m: nat)
    requires |d.ehufsi| == 256 && r <= 15 && 1 <= n <= MAX_COEF_BITS
    ensures 1 <= m <= n && CoefCost(d, r, n) == SymbolCost(d, 16 * r + m, m)
  {
    if n == 1 || SymbolCost(d, 16 * r + n, n) <= CoefCost(d, r, n - 1) {
      m := n;
    } else {
      m := CoefCostReached(d, r, n - 1);
    }
  }

  // ---- the bits of operations ----

  /** How many bits some operations take. */
  ghost function Size(t: Tables, ops: seq<Op>): nat
    requires TablesOk(t) && Codable(t, ops)
  {
    |BitsOf(t, ops)|
  }

  lemma SizeNil(t: Tables)
    requires TablesOk(t)
    ensures Codable(t, []) && Size(t, []) == 0
  {}

  lemma SizeConcat(t: Tables, a: seq<Op>, b: seq<Op>)
    requires TablesOk(t)
    ensures Codable(t, a + b) <==> Codable(t, a) && Codable(t, b)
    ensures Codable(t, a + b) ==> Size(t, a + b) == Size(t, a) + Size(t, b)
  {
    hide Codable, BitsOf, TablesOk;
    CodableConcat(t, a, b);
    if Codable(t, a + b) { BitsOfConcat(t, a, b); }
  }

  lemma SizeSymbol(t: Tables, isDC: bool, tbl: nat, sym: nat)
    requires TablesOk(t) && tbl < 4 && sym < 256
    ensures Codable(t, [Huff(isDC, tbl, sym)]) <==> Slot(t, isDC, tbl).ehufsi[sym] > 0
    ensures Codable(t, [Huff(isDC, tbl, sym)]) ==>
      Size(t, [Huff(isDC, tbl, sym)]) == Slot(t, isDC, tbl).ehufsi[sym]
  {
    hide ToBits;
    var op := Huff(isDC, tbl, sym);
    if Codable(t, [op]) { assert HasCode(t, [op][0]); OneOpBits(t, op); }
  }

  lemma SizeExtra(t: Tables, v: int)
    requires TablesOk(t) && 1 <= BitLen(Abs(v)) <= 16
    ensures Codable(t, [Extra(v)]) && Size(t, [Extra(v)]) == BitLen(Abs(v))
  {
    hide ToBits, BitLen;
    OneOpBits(t, Extra(v));
  }

  /** A symbol and its additional bits. */
  lemma SizeCoef(t: Tables, isDC: bool, tbl: nat, sym: nat, v: int)
    requires TablesOk(t) && tbl < 4 && sym < 256 && 1 <= BitLen(Abs(v)) <= 16
    ensures var ops := [Huff(isDC, tbl, sym), Extra(v)];
      && (Codable(t, ops) <==> Slot(t, isDC, tbl).ehufsi[sym] > 0)
      && (Codable(t, ops) ==> Size(t, ops) == SymbolCost(Slot(t, isDC, tbl), sym, BitLen(Abs(v))))
  {
    hide Codable, Size, TablesOk, Extra;
    assert [Huff(isDC, tbl, sym), Extra(v)] == [Huff(isDC, tbl, sym)] + [Extra(v)];
    SizeConcat(t, [Huff(isDC, tbl, sym)], [Extra(v)]);
    SizeSymbol(t, isDC, tbl, sym);
    SizeExtra(t, v);
  }

  /** One step of the AC coefficients, in bits. */
  lemma AcSizeStep(t: Tables, block: Block, tbl: nat, k: nat, r: nat)
    requires TablesOk(t) && tbl < 4 && 1 <= k < 64
    requires Zigzag(block, k) != 0 && BitLen(Abs(Zigzag(block, k))) <= MAX_COEF_BITS
    ensures var d, n := Slot(t, false, tbl), BitLen(Abs(Zigzag(block, k)));
      var sym, cost := if r > 15 then ZRL else 16 * r + n, if r > 15 then 0 else n;
      var rest := if r > 15 then AcTrace(block, tbl, k, r - 16) else AcTrace(block, tbl, k + 1, 0);
      var tr := AcTrace(block, tbl, k, r);
      && 1 <= n && tr.bad == rest.bad
      && (Codable(t, tr.ops) <==> d.ehufsi[sym] > 0 && Codable(t, rest.ops))
      && (Codable(t, tr.ops) ==> Size(t, tr.ops) == SymbolCost(d, sym, cost) + Size(t, rest.ops))
  {
    hide AcTrace, Codable, Size, Zigzag, TablesOk, BitLen;
    AcStep(block, tbl, k, r);
    NonzeroBits(Zigzag(block, k));
    if r > 15 {
      SizeSymbol(t, false, tbl, ZRL);
      SizeConcat(t, [Huff(false, tbl, ZRL)], AcTrace(block, tbl, k, r - 16).ops);
    } else {
      var v := Zigzag(block, k);
      SizeCoef(t, false, tbl, 16 * r + BitLen(Abs(v)), v);
      SizeConcat(t, [Huff(false, tbl, 16 * r + BitLen(Abs(v))), Extra(v)], AcTrace(block, tbl, k + 1, 0).ops);
    }
  }

  lemma NonzeroBits(v: int)
    requires v != 0
    ensures BitLen(Abs(v)) >= 1
  {}

  // ---- blocks with a nonzero last coefficient ----

  /** They take at least what FullCost says. */
  lemma {:induction false} FullCostLeast(t: Tables, block: Block, tbl: nat, k: nat, r: nat)
    requires TablesOk(t) && tbl < 4 && 1 <= k <= 63 && Zigzag(block, 63) != 0
    requires !AcTrace(block, tbl, k, r).bad && Codable(t, AcTrace(block, tbl, k, r).ops)
    ensures Size(t, AcTrace(block, tbl, k, r).ops) >= FullCost(Slot(t, false, tbl), k, r)
    ensures Zigzag(block, k) != 0 ==>
      Size(t, AcTrace(block, tbl, k, r).ops) >= NonzeroCost(Slot(t, false, tbl), k, r)
    decreases 64 - k, r
  {
    hide AcTrace, Codable, Size, Zigzag, TablesOk, BitLen, NonzeroCost, FullCost, CoefCost, NaturalOrder;
    var d := Slot(t, false, tbl);
    AcStep(block, tbl, k, r);
    CostIs(d, k, r);
    if Zigzag(block, k) == 0 {
      FullCostLeast(t, block, tbl, k + 1, r + 1);
    } else {
      InRangeHere(block, tbl, k, r);
      AcSizeStep(t, block, tbl, k, r);
      if r > 15 {
        FullCostLeast(t, block, tbl, k, r - 16);
      } else {
        CoefCostLeast(d, r, BitLen(Abs(Zigzag(block, k))), MAX_COEF_BITS);
        if k < 63 { FullCostLeast(t, block, tbl, k + 1, 0); }
      }
    }
  }

  lemma InRangeHere(block: Block, tbl: nat, k: nat, r: nat)
    requires 1 <= k <= 63 && !AcTrace(block, tbl, k, r).bad
    ensures BitLen(Abs(Zigzag(block, k))) <= MAX_COEF_BITS
  {
    hide AcTrace, Zigzag, BitLen;
    AcBad(block, tbl, k, r);
  }

  /** The block with another coefficient at zigzag position k. */
  function SetZigzag(block: Block, k: nat, v: int): Block
    requires k < 64
  {
    block[NaturalOrder(k) := v]
  }

  lemma SetZigzagAt(block: Block, k: nat, v: int, j: nat)
    requires k < 64 && j < 64
    ensures Zigzag(SetZigzag(block, k, v), j) == if j == k then v else Zigzag(block, j)
  {
    hide NaturalOrder, ZigzagOrder;
    ZigzagOfNatural(k);
    ZigzagOfNatural(j);
  }

  lemma {:induction false} AcAlike(a: Block, b: Block, tbl: nat, k: nat, r: nat)
    requires 1 <= k <= 64 && forall j :: k <= j < 64 ==> Zigzag(a, j) == Zigzag(b, j)
    ensures AcTrace(a, tbl, k, r) == AcTrace(b, tbl, k, r)
    decreases 64 - k, r
  {
    hide AcTrace, Zigzag, BitLen;
    AcStep(a, tbl, k, r);
    AcStep(b, tbl, k, r);
    if k < 64 {
      if Zigzag(a, k) == 0 {
        AcAlike(a, b, tbl, k + 1, r + 1);
      } else if r > 15 {
        AcAlike(a, b, tbl, k, r - 16);
      } else {
        AcAlike(a, b, tbl, k + 1, 0);
      }
    }
  }

  /** A power of two with n bits. */
  lemma OfBits(n: nat)
    requires n >= 1
    ensures BitLen(Abs(Pow2(n - 1))) == n
  {
    hide BitLen;
    var v, l := Pow2(n - 1), BitLen(Pow2(n - 1));
    Pow2Mono(0, n - 1);
    Pow2Step(n - 1);
    if l < n { Pow2Mono(l, n - 1); }
    if l > n { Pow2Mono(n, l - 1); }
  }

  /** The block codes the coefficients from k on at this cost. */
  ghost predicate Costs(t: Tables, block: Block, tbl: nat, k: nat, r: nat, cost: nat)
    requires TablesOk(t) && 1 <= k <= 64
  {
    var tr := AcTrace(block, tbl, k, r);
    !tr.bad && Codable(t, tr.ops) && Size(t, tr.ops) == cost
  }

  /** And this is reached. */
  lemma {:induction false} FullCostReached(t: Tables, tbl: nat, k: nat, r: nat) returns (block: Block)
    requires TablesOk(t) && tbl < 4 && 1 <= k <= 63 && FullCost(Slot(t, false, tbl), k, r) < NEVER
    ensures Zigzag(block, 63) != 0 && Costs(t, block, tbl, k, r, FullCost(Slot(t, false, tbl), k, r))
    decreases 64 - k, 2, r
  {
    hide AcTrace, Codable, Size, Zigzag, TablesOk, NonzeroCost, FullCost, NaturalOrder, SetZigzag;
    var d := Slot(t, false, tbl);
    CostIs(d, k, r);
    if k < 63 && FullCost(d, k + 1, r + 1) <= NonzeroCost(d, k, r) {
      var b := FullCostReached(t, tbl, k + 1, r + 1);
      block := SetZigzag(b, k, 0);
      forall j: nat | j < 64 ensures Zigzag(block, j) == if j == k then 0 else Zigzag(b, j) { SetZigzagAt(b, k, 0, j); }
      AcAlike(block, b, tbl, k + 1, r + 1);
      AcStep(block, tbl, k, r);
    } else {
      block := NonzeroCostReached(t, tbl, k, r);
    }
  }

  lemma {:induction false} NonzeroCostReached(t: Tables, tbl: nat, k: nat, r: nat) returns (block: Block)
    requires TablesOk(t) && tbl < 4 && 1 <= k <= 63 && NonzeroCost(Slot(t, false, tbl), k, r) < NEVER
    ensures Zigzag(block, 63) != 0 && Zigzag(block, k) != 0 && BitLen(Abs(Zigzag(block, k))) <= MAX_COEF_BITS
    ensures Costs(t, block, tbl, k, r, NonzeroCost(Slot(t, false, tbl), k, r))
    decreases 64 - k, 1, r
  {
    hide AcTrace, Codable, Size, Zigzag, TablesOk, NonzeroCost, FullCost, CoefCost, BitLen, Pow2, NaturalOrder,
      SetZigzag;
    var d := Slot(t, false, tbl);
    CostIs(d, k, r);
    if r > 15 {
      block := NonzeroCostReached(t, tbl, k, r - 16);
    } else {
      var m := CoefCostReached(d, r, MAX_COEF_BITS);
      var v := Pow2(m - 1);
      OfBits(m);
      Pow2Mono(0, m - 1);
      Pow2Step(0);
      block := LastBlock(t, tbl, k, v);
    }
    AcSizeStep(t, block, tbl, k, r);
  }

  lemma LastBlock(t: Tables, tbl: nat, k: nat, v: int) returns (block: Block)
    requires TablesOk(t) && tbl < 4 && 1 <= k <= 63 && v != 0
    requires k < 63 ==> FullCost(Slot(t, false, tbl), k + 1, 0) < NEVER
    ensures Zigzag(block, 63) != 0 && Zigzag(block, k) == v
    ensures Costs(t, block, tbl, k + 1, 0, if k == 63 then 0 else FullCost(Slot(t, false, tbl), k + 1, 0))
    decreases 64 - k, 0, 0
  {
    hide AcTrace, Codable, Size, Zigzag, TablesOk, FullCost, NaturalOrder, SetZigzag;
    if k == 63 {
      block := SetZigzag(DcBlock(0), 63, v);
      SetZigzagAt(DcBlock(0), 63, v, 63);
      AcEnd(block, tbl);
      SizeNil(t);
    } else {
      var b := FullCostReached(t, tbl, k + 1, 0);
      block := SetZigzag(b, k, v);
      forall j: nat | j < 64 ensures Zigzag(block, j) == if j == k then v else Zigzag(b, j) { SetZigzagAt(b, k, v, j); }
      AcAlike(block, b, tbl, k + 1, 0);
    }
  }

  lemma AcEnd(block: Block, tbl: nat)
    ensures AcTrace(block, tbl, 64, 0) == Trace([], false)
  {}

  // ---- the cheapest block ----

  /** If the last coefficient is zero the AC coefficients take at least an EOB. */
  lemma {:induction false} EobLeast(t: Tables, block: Block, tbl: nat, k: nat, r: nat)
    requires TablesOk(t) && tbl < 4 && 1 <= k <= 64 && (if k == 64 then r > 0 else Zigzag(block, 63) == 0)
    requires !AcTrace(block, tbl, k, r).bad && Codable(t, AcTrace(block, tbl, k, r).ops)
    ensures 0 < Slot(t, false, tbl).ehufsi[EOB] <= Size(t, AcTrace(block, tbl, k, r).ops)
    decreases 64 - k, r
  {
    hide AcTrace, Codable, Size, Zigzag, TablesOk, BitLen, NaturalOrder;
    AcStep(block, tbl, k, r);
    if k == 64 {
      SizeSymbol(t, false, tbl, EOB);
    } else if Zigzag(block, k) == 0 {
      EobLeast(t, block, tbl, k + 1, r + 1);
    } else {
      InRangeHere(block, tbl, k, r);
      AcSizeStep(t, block, tbl, k, r);
      if r > 15 {
        EobLeast(t, block, tbl, k, r - 16);
      } else {
        EobLeast(t, block, tbl, k + 1, 0);
      }
    }
  }

  /** What the DC difference takes. */
  lemma DcSize(t: Tables, diff: int, tbl: nat)
    requires TablesOk(t) && tbl < 4 && !DcTrace(diff, tbl).bad
    ensures var n, ops := BitLen(Abs(diff)), DcTrace(diff, tbl).ops;
      && n <= MAX_COEF_BITS + 1 && (n == 0 <==> diff == 0)
      && (Codable(t, ops) <==> Slot(t, true, tbl).ehufsi[n] > 0)
      && (Codable(t, ops) ==> Size(t, ops) == SymbolCost(Slot(t, true, tbl), n, n))
  {
    hide Codable, Size, TablesOk, BitLen, Extra;
    DcTraceIs(diff, tbl);
    var n := BitLen(Abs(diff));
    if diff == 0 { SizeSymbol(t, true, tbl, n); } else { SizeCoef(t, true, tbl, n, diff); }
  }

  /** The block can be coded with these tables. */
  ghost predicate BlockCodable(t: Tables, block: Block, lastDc: int, dcTbl: nat, acTbl: nat)
    requires TablesOk(t)
  {
    InRange(block, lastDc) && Codable(t, BlockTrace(block, lastDc, dcTbl, acTbl).ops)
  }

  lemma BlockSize(t: Tables, block: Block, lastDc: int, dcTbl: nat, acTbl: nat)
    requires TablesOk(t) && dcTbl < 4 && acTbl < 4
    ensures var dc, ac := DcTrace(block[0] - lastDc, dcTbl), AcTrace(block, acTbl, 1, 0);
      && (BlockCodable(t, block, lastDc, dcTbl, acTbl)
          <==> !dc.bad && !ac.bad && Codable(t, dc.ops) && Codable(t, ac.ops))
      && (BlockCodable(t, block, lastDc, dcTbl, acTbl) ==>
           Size(t, BlockTrace(block, lastDc, dcTbl, acTbl).ops) == Size(t, dc.ops) + Size(t, ac.ops))
  {
    hide AcTrace, DcTrace, Codable, Size, TablesOk, InRange;
    var dc, ac := DcTrace(block[0] - lastDc, dcTbl), AcTrace(block, acTbl, 1, 0);
    BlockBad(block, lastDc, dcTbl, acTbl);
    SizeConcat(t, dc.ops, ac.ops);
  }

  /** The tables give the dummy block the fewest bits: no DC category is shorter than category 0, additional bits
      included, and no way to code 63 coefficients without EOB is shorter than EOB. */
  ghost predicate FavourDummy(dc: DerivedTable, ac: DerivedTable)
    requires |dc.ehufsi| == 256 && |ac.ehufsi| == 256
  {
    && (forall n :: 1 <= n <= 11 && dc.ehufsi[n] > 0 ==> dc.ehufsi[0] <= dc.ehufsi[n] + n)
    && ac.ehufsi[EOB] <= FullCost(ac, 1, 0)
  }

  /** The dummy block takes the codes of category 0 and of EOB. */
  lemma DummySize(t: Tables, lastDc: int, diff: int, dcTbl: nat, acTbl: nat)
    requires TablesOk(t) && dcTbl < 4 && acTbl < 4 && BitLen(Abs(diff)) <= MAX_COEF_BITS + 1
    requires Slot(t, true, dcTbl).ehufsi[BitLen(Abs(diff))] > 0 && Slot(t, false, acTbl).ehufsi[EOB] > 0
    ensures BlockCodable(t, DcBlock(lastDc + diff), lastDc, dcTbl, acTbl)
    ensures Size(t, BlockTrace(DcBlock(lastDc + diff), lastDc, dcTbl, acTbl).ops)
      == SymbolCost(Slot(t, true, dcTbl), BitLen(Abs(diff)), BitLen(Abs(diff))) + Slot(t, false, acTbl).ehufsi[EOB]
  {
    hide AcTrace, Codable, Size, TablesOk, BitLen, Zigzag;
    var block := DcBlock(lastDc + diff);
    BlockSize(t, block, lastDc, dcTbl, acTbl);
    forall k | 1 <= k < 64 ensures Zigzag(block, k) == 0 { DcBlockAc(lastDc + diff, k); }
    AcZero(block, acTbl, 1, 0);
    SizeSymbol(t, false, acTbl, EOB);
    DcSize(t, diff, dcTbl);
  }

  lemma {:induction false} AcZero(block: Block, tbl: nat, k: nat, r: nat)
    requires 1 <= k <= 64 && (k < 64 || r > 0) && forall j :: k <= j < 64 ==> Zigzag(block, j) == 0
    ensures AcTrace(block, tbl, k, r) == Trace([Huff(false, tbl, EOB)], false)
    decreases 64 - k
  {
    hide AcTrace, Zigzag;
    AcStep(block, tbl, k, r);
    if k < 64 { AcZero(block, tbl, k + 1, r + 1); }
  }

  /** Exactly for such tables no block that can be coded takes fewer bits than the dummy block. */
  lemma DummyFewestBits(t: Tables, lastDc: int, dcTbl: nat, acTbl: nat)
    requires TablesOk(t) && dcTbl < 4 && acTbl < 4
    requires Slot(t, true, dcTbl).ehufsi[0] > 0 && Slot(t, false, acTbl).ehufsi[EOB] > 0
    ensures BlockCodable(t, DcBlock(lastDc), lastDc, dcTbl, acTbl)
    ensures (forall block: Block :: BlockCodable(t, block, lastDc, dcTbl, acTbl) ==>
              Size(t, BlockTrace(DcBlock(lastDc), lastDc, dcTbl, acTbl).ops)
                <= Size(t, BlockTrace(block, lastDc, dcTbl, acTbl).ops))
      <==> FavourDummy(Slot(t, true, dcTbl), Slot(t, false, acTbl))
  {
    hide AcTrace, DcTrace, BlockTrace, Codable, Size, TablesOk, BitLen, Zigzag, FullCost, Slot, InRange, NaturalOrder;
    var dc, ac := Slot(t, true, dcTbl), Slot(t, false, acTbl);
    ZeroBits();
    DummySize(t, lastDc, 0, dcTbl, acTbl);
    if FavourDummy(dc, ac) {
      forall block: Block | BlockCodable(t, block, lastDc, dcTbl, acTbl)
        ensures dc.ehufsi[0] + ac.ehufsi[EOB] <= Size(t, BlockTrace(block, lastDc, dcTbl, acTbl).ops)
      {
        NoFewerBits(t, block, lastDc, dcTbl, acTbl);
      }
    } else {
      var block := FewerBits(t, lastDc, dcTbl, acTbl);
    }
  }

  lemma ZeroBits()
    ensures BitLen(Abs(0)) == 0
  {}

  lemma NoFewerBits(t: Tables, block: Block, lastDc: int, dcTbl: nat, acTbl: nat)
    requires TablesOk(t) && dcTbl < 4 && acTbl < 4 && BlockCodable(t, block, lastDc, dcTbl, acTbl)
    requires FavourDummy(Slot(t, true, dcTbl), Slot(t, false, acTbl))
    ensures Slot(t, true, dcTbl).ehufsi[0] + Slot(t, false, acTbl).ehufsi[EOB]
      <= Size(t, BlockTrace(block, lastDc, dcTbl, acTbl).ops)
  {
    hide AcTrace, DcTrace, BlockTrace, Codable, Size, TablesOk, BitLen, Zigzag, FullCost, Slot, BlockCodable,
      NaturalOrder;
    BlockSize(t, block, lastDc, dcTbl, acTbl);
    DcSize(t, block[0] - lastDc, dcTbl);
    if Zigzag(block, 63) == 0 {
      EobLeast(t, block, acTbl, 1, 0);
    } else {
      FullCostLeast(t, block, acTbl, 1, 0);
    }
  }

  lemma FewerBits(t: Tables, lastDc: int, dcTbl: nat, acTbl: nat) returns (block: Block)
    requires TablesOk(t) && dcTbl < 4 && acTbl < 4
    requires Slot(t, true, dcTbl).ehufsi[0] > 0 && Slot(t, false, acTbl).ehufsi[EOB] > 0
    requires !FavourDummy(Slot(t, true, dcTbl), Slot(t, false, acTbl))
    ensures BlockCodable(t, block, lastDc, dcTbl, acTbl)
    ensures Slot(t, true, dcTbl).ehufsi[0] + Slot(t, false, acTbl).ehufsi[EOB]
      > Size(t, BlockTrace(block, lastDc, dcTbl, acTbl).ops)
  {
    hide AcTrace, DcTrace, BlockTrace, Codable, Size, BitLen, Zigzag, FullCost, BlockCodable, NaturalOrder, SetZigzag;
    var dc, ac := Slot(t, true, dcTbl), Slot(t, false, acTbl);
    if n :| 1 <= n <= MAX_COEF_BITS + 1 && 0 < dc.ehufsi[n] && dc.ehufsi[0] > dc.ehufsi[n] + n {
      OfBits(n);
      DummySize(t, lastDc, Pow2(n - 1), dcTbl, acTbl);
      block := DcBlock(lastDc + Pow2(n - 1));
    } else {
      var b := FullCostReached(t, acTbl, 1, 0);
      block := SetZigzag(b, 0, lastDc);
      NaturalStart();
      forall j: nat | 1 <= j < 64 ensures Zigzag(block, j) == Zigzag(b, j) { SetZigzagAt(b, 0, lastDc, j); }
      SetDcOf(b, lastDc);
      AcAlike(block, b, acTbl, 1, 0);
      BlockSize(t, block, lastDc, dcTbl, acTbl);
      ZeroBits();
      ZeroDiff(dcTbl);
      DcSize(t, 0, dcTbl);
    }
  }

  lemma ZeroDiff(tbl: nat)
    ensures !DcTrace(0, tbl).bad
  {}

  lemma SetDcOf(b: Block, v: int)
    ensures SetZigzag(b, 0, v)[0] == v
  {
    NaturalStart();
  }
}
