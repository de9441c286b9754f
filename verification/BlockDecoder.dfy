/** The decoder of T.81 sections F.2.2.1 and F.2.2.2, and the proof that it undoes the encoding of a block. */
module BlockDecoder {
  import opened Bits
  import opened HuffmanTable
  import opened ZigzagScan
  import opened Symbols
  import opened Emissions

  /** Huffman tables by slot, as a DHT marker delivers them. */
  datatype CodeTables = CodeTables(dc: seq<HuffTable>, ac: seq<HuffTable>)

  ghost predicate CodeTablesOk(h: CodeTables) {
    && |h.dc| == 4 && |h.ac| == 4
    && (forall i :: 0 <= i < 4 ==> WellFormed(h.dc[i]))
    && (forall i :: 0 <= i < 4 ==> WellFormed(h.ac[i]))
  }

  ghost function CodeSlot(h: CodeTables, isDC: bool, tbl: nat): (t: HuffTable)
    requires CodeTablesOk(h) && tbl < 4
    ensures WellFormed(t)
  {
    if isDC then h.dc[tbl] else h.ac[tbl]
  }

  /** The encoder's slot was derived from the acceptable table that the decoder has in the same slot. */
  ghost predicate SlotMatches(t: Tables, h: CodeTables, isDC: bool, tbl: nat)
    requires TablesOk(t) && CodeTablesOk(h) && tbl < 4
  {
    var table := CodeSlot(h, isDC, tbl);
    Acceptable(table, isDC) && DerivedFrom(Slot(t, isDC, tbl), table)
  }

  ghost function DecodeSymbol(t: HuffTable, bits: seq<bool>): (r: Option<(byte, seq<bool>)>)
    requires WellFormed(t)
    ensures r.Some? ==> |r.value.1| <= |bits|
  {
    match DecodeIndex(t.bits, bits)
    case None => None
    case Some((p, rest)) => if p < 256 then Some((t.huffval[p], rest)) else None
  }

  /** Figure F.12: a value from its additional bits. */
  function Extend(x: nat, s: nat): int
    requires s >= 1
  {
    if x < Pow2(s - 1) then x - Pow2(s) + 1 else x
  }

  /** Figure F.13: AC coefficients from zigzag position k on. */
  ghost function DecodeAc(t: HuffTable, bits: seq<bool>, k: nat, coefs: Block): (r: Option<(Block, seq<bool>)>)
    requires WellFormed(t) && 1 <= k
    decreases 80 - k
  {
    if k >= 64 then Some((coefs, bits))
    else
      match DecodeSymbol(t, bits)
      case None => None
      case Some((rs, rest)) =>
        var r, s := rs / 16, rs % 16;
        if s != 0 then
          if k + r >= 64 || |rest| < s then None
          else
            var v := Extend(Value(rest[..s]), s);
            DecodeAc(t, rest[s..], k + r + 1, coefs[NaturalOrder(k + r) := v])
        else if r != 15 then Some((coefs, rest))
        else DecodeAc(t, rest, k + 16, coefs)
  }

  /** Decodes one block, given the previous DC value of its component. */
  ghost function DecodeBlock(dc: HuffTable, ac: HuffTable, lastDc: int, bits: seq<bool>): Option<(Block, seq<bool>)>
    requires WellFormed(dc) && WellFormed(ac)
  {
    match DecodeSymbol(dc, bits)
    case None => None
    case Some((s, rest)) =>
      if s == 0 then DecodeAc(ac, rest, 1, DcBlock(lastDc))
      else if |rest| < s then None
      else DecodeAc(ac, rest[s..], 1, DcBlock(lastDc + Extend(Value(rest[..s]), s)))
  }

  // ---- the encoder's bits, one operation after the other ----

  /** No restart markers and every symbol has a code. */
  ghost predicate Codable(t: Tables, ops: seq<Op>)
    requires TablesOk(t)
  {
    forall i :: 0 <= i < |ops| ==> OpOk(ops[i]) && !ops[i].Restart? && HasCode(t, ops[i])
  }

  ghost function BitsOf(t: Tables, ops: seq<Op>): seq<bool>
    requires TablesOk(t) && Codable(t, ops)
  {
    if ops == [] then [] else OpBits(t, ops[0]) + BitsOf(t, ops[1..])
  }

  lemma CodableConcat(t: Tables, a: seq<Op>, b: seq<Op>)
    requires TablesOk(t)
    ensures Codable(t, a + b) <==> Codable(t, a) && Codable(t, b)
  {
    hide HasCode, OpOk;
    if Codable(t, a + b) {
      forall i | 0 <= i < |a| ensures OpOk(a[i]) && !a[i].Restart? && HasCode(t, a[i]) { assert (a + b)[i] == a[i]; }
      forall i | 0 <= i < |b|
        ensures OpOk(b[i]) && !b[i].Restart? && HasCode(t, b[i])
      {
        assert (a + b)[|a| + i] == b[i];
      }
    }
  }

  lemma BitsOfStep(t: Tables, op: Op, rest: seq<Op>)
    requires TablesOk(t) && Codable(t, [op] + rest)
    ensures Codable(t, [op]) && Codable(t, rest) && OpOk(op) && !op.Restart? && HasCode(t, op)
    ensures BitsOf(t, []) == []
    ensures BitsOf(t, [op] + rest) == OpBits(t, op) + BitsOf(t, rest)
  {
    hide HasCode, OpOk, OpBits;
    CodableConcat(t, [op], rest);
    assert [op][0] == op;
    assert ([op] + rest)[1..] == rest;
  }

  lemma {:induction false} BitsOfConcat(t: Tables, a: seq<Op>, b: seq<Op>)
    requires TablesOk(t) && Codable(t, a) && Codable(t, b)
    ensures Codable(t, a + b) && BitsOf(t, a + b) == BitsOf(t, a) + BitsOf(t, b)
  {
    hide *;
    CodableConcat(t, a, b);
    if a == [] {
      assert a + b == b;
      BitsOfNil(t);
    } else {
      assert a == [a[0]] + a[1..] && a + b == [a[0]] + (a[1..] + b);
      BitsOfStep(t, a[0], a[1..]);
      BitsOfConcat(t, a[1..], b);
      BitsOfStep(t, a[0], a[1..] + b);
    }
  }

  lemma BitsOfNil(t: Tables)
    requires TablesOk(t)
    ensures Codable(t, []) && BitsOf(t, []) == []
  {}

  /** The packer refines bit concatenation: between markers, the bytes written are the stuffed complete bytes of the
      concatenation of all codes, and the rest of it is pending. */
  lemma {:induction false} RunConcatenates(t: Tables, ops: seq<Op>)
    requires TablesOk(t) && Codable(t, ops)
    ensures OpsOk(ops)
    ensures Run(t, Emission([], [], false), ops)
      == Emission(Stuff(FullBytes(BitsOf(t, ops))), Leftover(BitsOf(t, ops)), false)
  {
    hide Run, BitsOf, OpBits, HasCode, OpOk, Stuff, FullBytes, Leftover, Codable;
    CodableOk(t, ops);
    if ops == [] {
      RunNil(t, Emission([], [], false));
      BitsOfNil(t);
      NothingYet();
    } else {
      var before, op := ops[..|ops| - 1], ops[|ops| - 1];
      assert ops == before + [op];
      CodableConcat(t, before, [op]);
      RunConcatenates(t, before);
      RunSnoc(t, Emission([], [], false), before, op);
      BitsOfConcat(t, before, [op]);
      assert [op] + [] == [op];
      BitsOfStep(t, op, []);
      var x, b := BitsOf(t, before), OpBits(t, op);
      assert BitsOf(t, ops) == x + b;
      FullBytesConcat(x, b);
      StuffConcat(FullBytes(x), FullBytes(Leftover(x) + b));
    }
  }

  lemma CodableOk(t: Tables, ops: seq<Op>)
    requires TablesOk(t) && Codable(t, ops)
    ensures OpsOk(ops) && (ops != [] ==> OpOk(ops[|ops| - 1]))
  {}

  lemma NothingYet()
    ensures Stuff(FullBytes([])) == [] && Leftover([]) == []
  {}

  // ---- symbols and values decode back ----

  lemma SymbolDecodes(t: Tables, h: CodeTables, isDC: bool, tbl: nat, sym: nat, rest: seq<bool>)
    requires TablesOk(t) && CodeTablesOk(h) && tbl < 4 && sym < 256 && SlotMatches(t, h, isDC, tbl)
    requires HasCode(t, Huff(isDC, tbl, sym))
    ensures DecodeSymbol(CodeSlot(h, isDC, tbl), OpBits(t, Huff(isDC, tbl, sym)) + rest) == Some((sym, rest))
  {
    hide FirstIndex, FirstCode, SizeOf, CodeOf, KraftUpTo, Pow2, ToBits, DecodeIndex;
    var table, d := CodeSlot(h, isDC, tbl), Slot(t, isDC, tbl);
    assert sym in table.huffval[..Total(table.bits)];
    var p: nat :| p < Total(table.bits) && table.huffval[p] == sym;
    assert OpBits(t, Huff(isDC, tbl, sym)) == CodeBits(table.bits, p);
    DecodeCode(table.bits, p, rest);
  }

  lemma ExtendInverts(v: int)
    requires v != 0
    ensures BitLen(Abs(v)) >= 1
    ensures Extend(Value(ToBits(if v < 0 then v - 1 else v, BitLen(Abs(v)))), BitLen(Abs(v))) == v
  {
    var n := BitLen(Abs(v));
    var p, h := Pow2(n), Pow2(n - 1);
    assert h <= Abs(v) < p && p == 2 * h;
    if v > 0 {
      ValueOfSmall(v, n);
    } else {
      ValueToBits(v - 1, n);
      DivModUnique(v - 1, p, -1, v - 1 + p);
    }
  }

  /** The additional bits of a nonzero value, read back in front of other bits. */
  lemma ExtraDecodes(t: Tables, v: int, rest: seq<bool>)
    requires TablesOk(t) && v != 0 && BitLen(Abs(v)) <= 16
    ensures var n := BitLen(Abs(v)); var bits := OpBits(t, Extra(v)) + rest;
      1 <= n <= |bits| && bits[n..] == rest && Extend(Value(bits[..n]), n) == v
  {
    hide Value, ToBits, BitLen, Extend, Pow2;
    ExtendInverts(v);
    var n := BitLen(Abs(v));
    var bits := OpBits(t, Extra(v)) + rest;
    assert bits[..n] == OpBits(t, Extra(v));
  }

  // ---- the AC coefficients decode back ----

  /** The block with only its first m coefficients in zigzag order. */
  function Partial(block: Block, m: nat): Block {
    seq(64, n requires 0 <= n < 64 => if ZigzagOrder(n) < m then block[n] else 0)
  }

  lemma PartialZeros(block: Block, a: nat, b: nat)
    requires a <= b <= 64
    requires forall j :: a <= j < b ==> Zigzag(block, j) == 0
    ensures Partial(block, a) == Partial(block, b)
  {
    hide ZigzagOrder, NaturalOrder;
    var p, q := Partial(block, a), Partial(block, b);
    forall n | 0 <= n < 64 ensures p[n] == q[n] {
      var z := ZigzagOrder(n);
      NaturalOfZigzag(n);
      if a <= z < b { assert Zigzag(block, z) == block[n]; }
    }
    assert p == q;
  }

  lemma PartialUpdate(block: Block, k: nat)
    requires k < 64
    ensures Partial(block, k)[NaturalOrder(k) := Zigzag(block, k)] == Partial(block, k + 1)
  {
    hide ZigzagOrder, NaturalOrder;
    var p, q := Partial(block, k)[NaturalOrder(k) := Zigzag(block, k)], Partial(block, k + 1);
    ZigzagOfNatural(k);
    forall n | 0 <= n < 64 ensures p[n] == q[n] {
      NaturalOfZigzag(n);
    }
    assert p == q;
  }

  lemma PartialWhole(block: Block)
    ensures Partial(block, 64) == block && Partial(block, 1) == DcBlock(block[0])
  {
    assert ZigzagOrder(0) == 0 && NaturalOrder(0) == 0;
    PartialDc(block);
  }

  lemma PartialDc(block: Block)
    requires ZigzagOrder(0) == 0 && NaturalOrder(0) == 0
    ensures Partial(block, 64) == block && Partial(block, 1) == DcBlock(block[0])
  {
    hide ZigzagOrder, NaturalOrder;
    var p, q := Partial(block, 1), DcBlock(block[0]);
    forall n | 0 <= n < 64 ensures p[n] == q[n] {
      NaturalOfZigzag(n);
    }
    assert p == q;
    assert Partial(block, 64) == block;
  }

  /** Decoding an end-of-block symbol. */
  lemma DecodeEob(table: HuffTable, bits: seq<bool>, rest: seq<bool>, k: nat, coefs: Block)
    requires WellFormed(table) && 1 <= k < 64 && DecodeSymbol(table, bits) == Some((EOB, rest))
    ensures DecodeAc(table, bits, k, coefs) == Some((coefs, rest))
  {}

  lemma DecodeZrl(table: HuffTable, bits: seq<bool>, rest: seq<bool>, k: nat, coefs: Block)
    requires WellFormed(table) && 1 <= k < 64 && DecodeSymbol(table, bits) == Some((ZRL, rest))
    ensures DecodeAc(table, bits, k, coefs) == DecodeAc(table, rest, k + 16, coefs)
  {}

  lemma DecodeNonzero(table: HuffTable, bits: seq<bool>, rest: seq<bool>, k: nat, r: nat, s: nat, coefs: Block)
    requires WellFormed(table) && 1 <= k && k + r < 64 && r <= 15 && 1 <= s <= 15 && s <= |rest|
    requires DecodeSymbol(table, bits) == Some((16 * r + s, rest))
    ensures DecodeAc(table, bits, k, coefs)
         == DecodeAc(table, rest[s..], k + r + 1, coefs[NaturalOrder(k + r) := Extend(Value(rest[..s]), s)])
  {
    hide Value, NaturalOrder, Extend, DecodeSymbol, DecodeIndex, Pow2;
    assert (16 * r + s) / 16 == r && (16 * r + s) % 16 == s;
  }

  /** The decoder, which has seen everything before the current run of r zeros, recovers the whole block. */
  lemma {:induction false} AcDecodes(t: Tables, h: CodeTables, tbl: nat, block: Block, k: nat, r: nat, rest: seq<bool>)
    requires TablesOk(t) && CodeTablesOk(h) && tbl < 4 && SlotMatches(t, h, false, tbl)
    requires 1 <= k <= 64 && r < k
    requires !AcTrace(block, tbl, k, r).bad && Codable(t, AcTrace(block, tbl, k, r).ops)
    requires forall j :: k - r <= j < k ==> Zigzag(block, j) == 0
    ensures DecodeAc(CodeSlot(h, false, tbl), BitsOf(t, AcTrace(block, tbl, k, r).ops) + rest, k - r,
      Partial(block, k - r))
         == Some((block, rest))
    decreases 64 - k, r
  {
    hide *;
    AcStep(block, tbl, k, r);
    var table := CodeSlot(h, false, tbl);
    var tr := AcTrace(block, tbl, k, r);
    BitsOfNil(t);
    if k == 64 {
      if r > 0 {
        AcDecodesEnd(t, h, tbl, block, r, rest);
      } else {
        PartialWhole(block);
        DecodeAcDone(table, [] + rest, block);
        assert [] + rest == rest;
      }
    } else if Zigzag(block, k) == 0 {
      AcDecodes(t, h, tbl, block, k + 1, r + 1, rest);
    } else if r > 15 {
      AcDecodesZrl(t, h, tbl, block, k, r, rest);
      AcDecodes(t, h, tbl, block, k, r - 16, rest);
    } else {
      AcDecodesNonzero(t, h, tbl, block, k, r, rest);
      AcDecodes(t, h, tbl, block, k + 1, 0, rest);
    }
  }

  lemma DecodeAcDone(table: HuffTable, bits: seq<bool>, coefs: Block)
    requires WellFormed(table)
    ensures DecodeAc(table, bits, 64, coefs) == Some((coefs, bits))
  {}

  lemma AcDecodesEnd(t: Tables, h: CodeTables, tbl: nat, block: Block, r: nat, rest: seq<bool>)
    requires TablesOk(t) && CodeTablesOk(h) && tbl < 4 && SlotMatches(t, h, false, tbl)
    requires 0 < r < 64 && Codable(t, [Huff(false, tbl, EOB)])
    requires forall j :: 64 - r <= j < 64 ==> Zigzag(block, j) == 0
    ensures DecodeAc(CodeSlot(h, false, tbl), BitsOf(t, [Huff(false, tbl, EOB)]) + rest, 64 - r, Partial(block, 64 - r))
         == Some((block, rest))
  {
    hide *;
    var op := Huff(false, tbl, EOB);
    assert [op] + [] == [op];
    BitsOfStep(t, op, []);
    assert OpBits(t, op) + [] == OpBits(t, op);
    EobIsByte();
    SymbolDecodes(t, h, false, tbl, EOB, rest);
    PartialZeros(block, 64 - r, 64);
    PartialWhole(block);
    DecodeEob(CodeSlot(h, false, tbl), OpBits(t, op) + rest, rest, 64 - r, block);
  }

  lemma EobIsByte()
    ensures EOB < 256 && ZRL < 256 && MAX_COEF_BITS <= 15
  {}

  lemma AcDecodesZrl(t: Tables, h: CodeTables, tbl: nat, block: Block, k: nat, r: nat, rest: seq<bool>)
    requires TablesOk(t) && CodeTablesOk(h) && tbl < 4 && SlotMatches(t, h, false, tbl)
    requires 1 <= k < 64 && 16 <= r < k
    requires !AcTrace(block, tbl, k, r).bad && Codable(t, AcTrace(block, tbl, k, r).ops)
    requires AcTrace(block, tbl, k, r) == Then(Trace([Huff(false, tbl, ZRL)], false), AcTrace(block, tbl, k, r - 16))
    requires forall j :: k - r <= j < k ==> Zigzag(block, j) == 0
    ensures !AcTrace(block, tbl, k, r - 16).bad && Codable(t, AcTrace(block, tbl, k, r - 16).ops)
    ensures var table := CodeSlot(h, false, tbl);
      DecodeAc(table, BitsOf(t, AcTrace(block, tbl, k, r).ops) + rest, k - r, Partial(block, k - r))
      == DecodeAc(table, BitsOf(t, AcTrace(block, tbl, k, r - 16).ops) + rest, k - (r - 16),
        Partial(block, k - (r - 16)))
  {
    hide *;
    var op, tail := Huff(false, tbl, ZRL), AcTrace(block, tbl, k, r - 16);
    ThenIs([op], tail);
    BitsOfStep(t, op, tail.ops);
    var after := BitsOf(t, tail.ops) + rest;
    assert BitsOf(t, AcTrace(block, tbl, k, r).ops) + rest == OpBits(t, op) + after;
    EobIsByte();
    SymbolDecodes(t, h, false, tbl, ZRL, after);
    PartialZeros(block, k - r, k - (r - 16));
    DecodeZrl(CodeSlot(h, false, tbl), OpBits(t, op) + after, after, k - r, Partial(block, k - r));
  }

  lemma ThenIs(ops: seq<Op>, b: Trace)
    ensures Then(Trace(ops, false), b) == Trace(ops + b.ops, b.bad)
  {}

  lemma AcDecodesNonzero(t: Tables, h: CodeTables, tbl: nat, block: Block, k: nat, r: nat, rest: seq<bool>)
    requires TablesOk(t) && CodeTablesOk(h) && tbl < 4 && SlotMatches(t, h, false, tbl)
    requires 1 <= k < 64 && r <= 15 && r < k && Zigzag(block, k) != 0
    requires !AcTrace(block, tbl, k, r).bad && Codable(t, AcTrace(block, tbl, k, r).ops)
    requires forall j :: k - r <= j < k ==> Zigzag(block, j) == 0
    ensures !AcTrace(block, tbl, k + 1, 0).bad && Codable(t, AcTrace(block, tbl, k + 1, 0).ops)
    ensures var table := CodeSlot(h, false, tbl);
      DecodeAc(table, BitsOf(t, AcTrace(block, tbl, k, r).ops) + rest, k - r, Partial(block, k - r))
      == DecodeAc(table, BitsOf(t, AcTrace(block, tbl, k + 1, 0).ops) + rest, k + 1, Partial(block, k + 1))
  {
    hide *;
    AcStep(block, tbl, k, r);
    EobIsByte();
    var v := Zigzag(block, k);
    var n := BitLen(Abs(v));
    var op1, op2, tail := Huff(false, tbl, 16 * r + n), Extra(v), AcTrace(block, tbl, k + 1, 0);
    ThenIs([op1, op2], tail);
    assert [op1, op2] + tail.ops == [op1] + ([op2] + tail.ops);
    BitsOfStep(t, op1, [op2] + tail.ops);
    BitsOfStep(t, op2, tail.ops);
    var after := BitsOf(t, tail.ops) + rest;
    var mid := OpBits(t, op2) + after;
    assert BitsOf(t, AcTrace(block, tbl, k, r).ops) + rest == OpBits(t, op1) + mid;
    ExtraDecodes(t, v, after);
    SymbolDecodes(t, h, false, tbl, 16 * r + n, mid);
    PartialZeros(block, k - r, k);
    PartialUpdate(block, k);
    DecodeNonzero(CodeSlot(h, false, tbl), OpBits(t, op1) + mid, mid, k - r, r, n, Partial(block, k - r));
  }

  /** Decoding the bits of a block's trace, whatever follows, recovers the block and leaves what follows. */
  lemma BlockDecodes(t: Tables, h: CodeTables, dcTbl: nat, acTbl: nat, block: Block, lastDc: int, rest: seq<bool>)
    requires TablesOk(t) && CodeTablesOk(h) && dcTbl < 4 && acTbl < 4
    requires SlotMatches(t, h, true, dcTbl) && SlotMatches(t, h, false, acTbl)
    requires !BlockTrace(block, lastDc, dcTbl, acTbl).bad && Codable(t, BlockTrace(block, lastDc, dcTbl, acTbl).ops)
    ensures DecodeBlock(CodeSlot(h, true, dcTbl), CodeSlot(h, false, acTbl), lastDc,
                        BitsOf(t, BlockTrace(block, lastDc, dcTbl, acTbl).ops) + rest) == Some((block, rest))
  {
    hide *;
    var diff := block[0] - lastDc;
    var dc, ac := DcTrace(diff, dcTbl), AcTrace(block, acTbl, 1, 0);
    BlockTraceIs(block, lastDc, dcTbl, acTbl);
    CodableConcat(t, dc.ops, ac.ops);
    BitsOfConcat(t, dc.ops, ac.ops);
    var after := BitsOf(t, ac.ops) + rest;
    assert BitsOf(t, dc.ops + ac.ops) + rest == BitsOf(t, dc.ops) + after;
    PartialWhole(block);
    AcDecodes(t, h, acTbl, block, 1, 0, rest);
    DcDecodes(t, h, dcTbl, acTbl, diff, lastDc, after);
  }

  lemma BlockTraceIs(block: Block, lastDc: int, dcTbl: nat, acTbl: nat)
    ensures var dc, ac := DcTrace(block[0] - lastDc, dcTbl), AcTrace(block, acTbl, 1, 0);
      BlockTrace(block, lastDc, dcTbl, acTbl) == if dc.bad then dc else Trace(dc.ops + ac.ops, ac.bad)
  {
    hide DcTrace, AcTrace;
  }

  lemma DcDecodes(t: Tables, h: CodeTables, dcTbl: nat, acTbl: nat, diff: int, lastDc: int, after: seq<bool>)
    requires TablesOk(t) && CodeTablesOk(h) && dcTbl < 4 && acTbl < 4 && SlotMatches(t, h, true, dcTbl)
    requires !DcTrace(diff, dcTbl).bad && Codable(t, DcTrace(diff, dcTbl).ops)
    ensures DecodeBlock(CodeSlot(h, true, dcTbl), CodeSlot(h, false, acTbl), lastDc,
      BitsOf(t, DcTrace(diff, dcTbl).ops) + after)
         == DecodeAc(CodeSlot(h, false, acTbl), after, 1, DcBlock(lastDc + diff))
  {
    hide *;
    var n := BitLen(Abs(diff));
    var op := Huff(true, dcTbl, n);
    DcTraceIs(diff, dcTbl);
    BitsOfNil(t);
    if diff == 0 {
      OneOpBits(t, op);
      SymbolDecodes(t, h, true, dcTbl, n, after);
      DecodeBlockDc(CodeSlot(h, true, dcTbl), CodeSlot(h, false, acTbl), lastDc, OpBits(t, op) + after, n, after);
    } else {
      var op2 := Extra(diff);
      TwoOpBits(t, op, op2);
      var mid := OpBits(t, op2) + after;
      assert BitsOf(t, [op, op2]) + after == OpBits(t, op) + mid;
      ExtraDecodes(t, diff, after);
      SymbolDecodes(t, h, true, dcTbl, n, mid);
      DecodeBlockDc(CodeSlot(h, true, dcTbl), CodeSlot(h, false, acTbl), lastDc, OpBits(t, op) + mid, n, mid);
    }
  }

  lemma OneOpBits(t: Tables, op: Op)
    requires TablesOk(t) && Codable(t, [op])
    ensures OpOk(op) && !op.Restart? && HasCode(t, op)
    ensures BitsOf(t, [op]) == OpBits(t, op)
  {
    hide *;
    BitsOfNil(t);
    assert [op] == [op] + [];
    BitsOfStep(t, op, []);
  }

  lemma TwoOpBits(t: Tables, op: Op, op2: Op)
    requires TablesOk(t) && Codable(t, [op, op2])
    ensures OpOk(op) && !op.Restart? && HasCode(t, op) && OpOk(op2) && !op2.Restart? && HasCode(t, op2)
    ensures BitsOf(t, [op, op2]) == OpBits(t, op) + OpBits(t, op2)
  {
    hide *;
    assert [op, op2] == [op] + [op2];
    BitsOfStep(t, op, [op2]);
    OneOpBits(t, op2);
  }

  lemma DcTraceIs(diff: int, tbl: nat)
    requires !DcTrace(diff, tbl).bad
    ensures var n := BitLen(Abs(diff));
      && n <= 11 && (n == 0 <==> diff == 0)
      && DcTrace(diff, tbl).ops == if diff == 0 then [Huff(true, tbl, n)] else [Huff(true, tbl, n), Extra(diff)]
  {}

  lemma DecodeBlockDc(dc: HuffTable, ac: HuffTable, lastDc: int, bits: seq<bool>, s: byte, rest: seq<bool>)
    requires WellFormed(dc) && WellFormed(ac) && DecodeSymbol(dc, bits) == Some((s, rest)) && s <= |rest|
    ensures DecodeBlock(dc, ac, lastDc, bits)
         == if s == 0 then DecodeAc(ac, rest, 1, DcBlock(lastDc))
            else DecodeAc(ac, rest[s..], 1, DcBlock(lastDc + Extend(Value(rest[..s]), s)))
  {
    hide DecodeAc, DecodeSymbol, Value, Extend, DcBlock;
  }
}
