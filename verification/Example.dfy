/** A small scan worked out by hand, down to its bytes: two components, a restart marker, a run of more than sixteen
    zeros, negative values, a block without EOB, a stuffed byte and padding. */
module Examples {
  import opened Bits
  import opened HuffmanTable
  import opened ZigzagScan
  import opened Symbols
  import opened Emissions
  import opened BlockDecoder
  import opened Scans
  import opened ScanLayouts
  import opened BlockLayouts
  import opened EntropyEncoder

  /** A table with codes of one to three bits. */
  function Table(b1: byte, b2: byte, b3: byte, symbols: seq<byte>): (t: HuffTable)
    requires |symbols| <= 256
    ensures WellFormed(t)
  {
    HuffTable([0, b1, b2, b3] + seq(13, i => 0), symbols + seq(256 - |symbols|, i => 0))
  }

  /** Codes 00, 01, 100 and 0, 100. */
  function Dc0(): HuffTable { Table(0, 2, 1, [3, 0, 1]) }
  function Dc1(): HuffTable { Table(1, 0, 1, [11, 0]) }

  /** Codes 0, 10, 110 and 00, 01, 10, 110. */
  function Ac0(): HuffTable { Table(1, 1, 1, [0xE1, 0xF0, 0x00]) }
  function Ac1(): HuffTable { Table(0, 3, 1, [0x01, 0x22, 0x00, 0xF0]) }

  function Slots(): (h: HuffSlots)
    ensures SlotsOk(h)
  {
    HuffSlots([Some(Dc0()), Some(Dc1()), None, None], [Some(Ac0()), Some(Ac1()), None, None])
  }

  /** Two blocks of the first component and one of the second in each MCU, a restart after every MCU. */
  function Config(): (c: ScanConfig)
    ensures ConfigOk(c)
  {
    ScanConfig(2, [0, 0, 1], [0, 1], [1, 0], 1)
  }

  function Coefs(dc: int, p: nat, x: int, q: nat, y: int): Block {
    seq(64, i => if i == 0 then dc else if i == p then x else if i == q then y else 0)
  }

  function Mcus(): (mcus: seq<Mcu>)
    ensures |mcus| == 2 && McusOk(Config(), mcus)
  {
    [[Coefs(5, 1, -1, 40, 3), Coefs(4, 1, 0, 1, 0), Coefs(2047, 63, 1, 63, 1)],
     [Coefs(5, 1, 0, 1, 0), Coefs(5, 1, 0, 1, 0), Coefs(0, 1, 0, 1, 0)]]
  }

  // ---- the codes ----

  lemma {:induction false} NoLongCodes(b1: byte, b2: byte, b3: byte, symbols: seq<byte>, l: nat)
    requires |symbols| <= 256 && 4 <= l <= 17
    ensures FirstIndex(Table(b1, b2, b3, symbols).bits, l) == b1 + b2 + b3
    ensures KraftUpTo(Table(b1, b2, b3, symbols).bits, l - 1) == 32768 * b1 + 16384 * b2 + 8192 * b3
  {
    hide Pow2, FirstIndex, KraftUpTo;
    var bits := Table(b1, b2, b3, symbols).bits;
    if l == 4 {
      FirstCodeStep(bits, 1); FirstCodeStep(bits, 2); FirstCodeStep(bits, 3);
      Powers();
      Pow2Step(11); Pow2Step(12); Pow2Step(13); Pow2Step(14);
    } else {
      NoLongCodes(b1, b2, b3, symbols, l - 1);
      FirstCodeStep(bits, l - 1);
    }
  }

  /** Canonical codes: 0, 1, ... of one bit, then twice the next number with two bits, and so on. */
  lemma CodeIs(b1: byte, b2: byte, b3: byte, symbols: seq<byte>, p: nat)
    requires |symbols| <= 256 && p < b1 + b2 + b3
    ensures var bits := Table(b1, b2, b3, symbols).bits;
      && p < Total(bits) == b1 + b2 + b3
      && SizeOf(bits, p) == (if p < b1 then 1 else if p < b1 + b2 then 2 else 3)
      && CodeOf(bits, p)
        == if p < b1 then p else if p < b1 + b2 then 2 * b1 + (p - b1) else 2 * (2 * b1 + b2) + (p - b1 - b2)
  {
    hide FirstIndex, FirstCode, KraftUpTo;
    var bits := Table(b1, b2, b3, symbols).bits;
    NoLongCodes(b1, b2, b3, symbols, 17);
    FirstCodeStep(bits, 1); FirstCodeStep(bits, 2); FirstCodeStep(bits, 3);
    SizeUnique(bits, p, if p < b1 then 1 else if p < b1 + b2 then 2 else 3);
  }

  /** The tables derived from the slots. */
  ghost predicate Derived(t: Tables) {
    && TablesOk(t)
    && DerivedFrom(t.dc[0], Dc0()) && DerivedFrom(t.dc[1], Dc1())
    && DerivedFrom(t.ac[0], Ac0()) && DerivedFrom(t.ac[1], Ac1())
  }

  lemma TableUsable(b1: byte, b2: byte, b3: byte, symbols: seq<byte>, isDC: bool)
    requires |symbols| == b1 + b2 + b3 <= 256 && 4 * b1 + 2 * b2 + b3 < 8
    requires Distinct(symbols, |symbols|) && (isDC ==> forall p :: 0 <= p < |symbols| ==> symbols[p] <= 15)
    ensures Acceptable(Table(b1, b2, b3, symbols), isDC)
  {
    hide FirstIndex, KraftUpTo, Pow2;
    NoLongCodes(b1, b2, b3, symbols, 17);
    Powers();
    Pow2Step(11); Pow2Step(12); Pow2Step(13); Pow2Step(14); Pow2Step(15);
  }

  lemma SlotsUsable()
    ensures AllUsable(Config(), Slots(), 2)
  {
    hide Acceptable, Table;
    TableUsable(0, 2, 1, [3, 0, 1], true);
    TableUsable(1, 0, 1, [11, 0], true);
    TableUsable(1, 1, 1, [0xE1, 0xF0, 0x00], false);
    TableUsable(0, 3, 1, [0x01, 0x22, 0x00, 0xF0], false);
  }

  lemma DerivedHere(t: Tables)
    requires TablesOk(t) && AllUsable(Config(), Slots(), 2) && AllDerived(Config(), Slots(), t, 2)
    ensures Derived(t)
  {
    hide Acceptable, Table, DerivedFrom;
    assert Config().dcTbl[0] == 0 && Config().dcTbl[1] == 1 && Config().acTbl[0] == 1 && Config().acTbl[1] == 0;
  }

  /** What an operation puts into the stream: the n bits of v. */
  ghost predicate Puts(t: Tables, op: Op, v: nat, n: nat)
    requires TablesOk(t)
  {
    && v < Pow2(n) && OpOk(op) && !op.Restart? && HasCode(t, op) && OpBits(t, op) == ToBits(v, n)
  }

  /** The p-th symbol of a table. */
  lemma PutsSymbol(t: Tables, isDC: bool, tbl: nat, b1: byte, b2: byte, b3: byte, symbols: seq<byte>, p: nat)
    requires TablesOk(t) && tbl < 4 && |symbols| == b1 + b2 + b3 && p < |symbols| <= 256
    requires DerivedFrom(Slot(t, isDC, tbl), Table(b1, b2, b3, symbols))
    requires b1 + b2 + b3 > 0 && 2 * (2 * b1 + b2) + b3 <= 8
    ensures var op := Huff(isDC, tbl, symbols[p]);
      if p < b1 then Puts(t, op, p, 1)
      else if p < b1 + b2 then Puts(t, op, 2 * b1 + (p - b1), 2)
      else Puts(t, op, 2 * (2 * b1 + b2) + (p - b1 - b2), 3)
  {
    hide FirstIndex, FirstCode, KraftUpTo, Pow2, SizeOf, CodeOf, ToBits;
    CodeIs(b1, b2, b3, symbols, p);
    Powers();
    assert Table(b1, b2, b3, symbols).huffval[p] == symbols[p];
  }

  /** The low n bits of a value. */
  lemma PutsValue(t: Tables, x: int, v: nat, n: nat)
    requires TablesOk(t) && 1 <= n <= 11 && v < Pow2(n) && (x == v || x == v - Pow2(n))
    ensures Puts(t, Raw(x, n), v, n)
  {
    hide Pow2, ToBits;
    ValueToBits(x, n);
    ValueToBits(v, n);
    DivModUnique(v, Pow2(n), 0, v);
    DivModUnique(x, Pow2(n), if x == v then 0 else -1, v);
    ToBitsValue(ToBits(x, n));
    ToBitsValue(ToBits(v, n));
  }

  // ---- texts of bits, as numbers ----

  ghost predicate Gives(t: Tables, ops: seq<Op>, v: nat, n: nat)
    requires TablesOk(t)
  {
    v < Pow2(n) && Codable(t, ops) && BitsOf(t, ops) == ToBits(v, n)
  }

  lemma Join(v: nat, n: nat, b: nat, m: nat)
    requires v < Pow2(n) && b < Pow2(m)
    ensures ToBits(v, n) + ToBits(b, m) == ToBits(v * Pow2(m) + b, n + m) && v * Pow2(m) + b < Pow2(n + m)
  {
    hide Pow2, ToBits, Value;
    var x := ToBits(v, n) + ToBits(b, m);
    ValueConcat(ToBits(v, n), ToBits(b, m));
    ValueOfSmall(v, n);
    ValueOfSmall(b, m);
    ToBitsValue(x);
  }

  lemma GivesNothing(t: Tables)
    requires TablesOk(t)
    ensures Gives(t, [], 0, 0)
  {}

  /** One more operation. */
  lemma Append(t: Tables, ops: seq<Op>, v: nat, n: nat, op: Op, b: nat, m: nat, pow: nat, w: nat)
    requires TablesOk(t) && Gives(t, ops, v, n) && Puts(t, op, b, m) && pow == Pow2(m) && w == v * pow + b
    ensures Gives(t, ops + [op], w, n + m)
  {
    hide Pow2, ToBits, BitsOf, OpBits, HasCode, OpOk;
    Join(v, n, b, m);
    BitsOfConcat(t, ops, [op]);
    OneOpBits(t, op);
  }

  // ---- the blocks ----

  /** Where the nonzero AC coefficients stand in zigzag order. */
  lemma NonzeroAt(dc: int, p: nat, x: int, q: nat, y: int, k: nat)
    requires 1 <= k < 64 && 1 <= p < 64 && 1 <= q < 64
    ensures Zigzag(Coefs(dc, p, x, q, y), k) == if k == ZigzagOrder(p) then x else if k == ZigzagOrder(q) then y else 0
  {
    hide NaturalOrder, ZigzagOrder;
    NotCorner(k);
    ZigzagOfNatural(k);
    NaturalOfZigzag(p);
    NaturalOfZigzag(q);
  }

  lemma NoAc(dc: int, tbl: nat)
    ensures AcLayout(Coefs(dc, 1, 0, 1, 0), tbl, 0) == [Huff(false, tbl, 0x00)]
  {
    hide AcLayout, Zigzag, NaturalOrder, ZigzagOrder;
    forall k | 1 <= k < 64 ensures Zigzag(Coefs(dc, 1, 0, 1, 0), k) == 0 { NonzeroAt(dc, 1, 0, 1, 0, k); }
    AcLayoutNext(Coefs(dc, 1, 0, 1, 0), tbl, 0, 64);
  }

  lemma TwoAc(dc: int, tbl: nat)
    ensures AcLayout(Coefs(dc, 1, -1, 40, 3), tbl, 0)
      == [Huff(false, tbl, 0x01), Raw(-2, 1), Huff(false, tbl, 0xF0), Huff(false, tbl, 0x22), Raw(3, 2),
          Huff(false, tbl, 0x00)]
  {
    hide AcLayout, Zigzag, NaturalOrder;
    var block := Coefs(dc, 1, -1, 40, 3);
    forall k | 1 <= k < 64 ensures Zigzag(block, k) == if k == 1 then -1 else if k == 20 then 3 else 0 {
      NonzeroAt(dc, 1, -1, 40, 3, k);
    }
    AcLayoutStep(block, tbl, 0, 1);
    AcLayoutStep(block, tbl, 1, 20);
    AcLayoutStep(block, tbl, 17, 20);
    AcLayoutStep(block, tbl, 20, 64);
  }

  lemma LastAc(dc: int, tbl: nat)
    ensures AcLayout(Coefs(dc, 63, 1, 63, 1), tbl, 0)
      == [Huff(false, tbl, 0xF0), Huff(false, tbl, 0xF0), Huff(false, tbl, 0xF0), Huff(false, tbl, 0xE1), Raw(1, 1)]
  {
    hide AcLayout, Zigzag, NaturalOrder;
    var block := Coefs(dc, 63, 1, 63, 1);
    forall k | 1 <= k < 64 ensures Zigzag(block, k) == if k == 63 then 1 else 0 { NonzeroAt(dc, 63, 1, 63, 1, k); }
    AcLayoutStep(block, tbl, 0, 63);
    AcLayoutStep(block, tbl, 16, 63);
    AcLayoutStep(block, tbl, 32, 63);
    AcLayoutStep(block, tbl, 48, 63);
    AcLayoutStep(block, tbl, 63, 64);
  }

  /** The symbols and values of the two intervals. */
  function Ops0(): seq<Op> {
    [Huff(true, 0, 3), Raw(5, 3), Huff(false, 1, 0x01), Raw(-2, 1), Huff(false, 1, 0xF0), Huff(false, 1, 0x22),
     Raw(3, 2), Huff(false, 1, 0x00)] +
    [Huff(true, 0, 1), Raw(-2, 1), Huff(false, 1, 0x00)] +
    [Huff(true, 1, 11), Raw(2047, 11), Huff(false, 0, 0xF0), Huff(false, 0, 0xF0), Huff(false, 0, 0xF0),
     Huff(false, 0, 0xE1), Raw(1, 1)]
  }

  function Ops1(): seq<Op> {
    [Huff(true, 0, 3), Raw(5, 3), Huff(false, 1, 0x00)] +
    [Huff(true, 0, 0), Huff(false, 1, 0x00)] +
    [Huff(true, 1, 0), Huff(false, 0, 0x00)]
  }

  /** The block at this place, its prediction, and that it is in range. */
  lemma BlockIs(i: nat, b: nat, diff: int)
    requires i < 2 && b < 3
    requires diff == [[5, -1, 2047], [5, 0, 0]][i][b]
    ensures Fine(Config(), Mcus(), i, b)
    ensures BlockOps(Config(), Mcus(), i, b)
      == DcLayout(diff, if b < 2 then 0 else 1) + AcLayout(Mcus()[i][b], if b < 2 then 1 else 0, 0)
  {
    hide BlockTrace, InRange, AcLayout, DcLayout;
    var c, mcus := Config(), Mcus();
    var ci := c.membership[b];
    assert mcus[i][b][0] - DcBefore(c, mcus, i, b, ci) == diff;
    RangeIs(mcus[i][b], DcBefore(c, mcus, i, b, ci));
    BlockBad(mcus[i][b], DcBefore(c, mcus, i, b, ci), c.dcTbl[ci], c.acTbl[ci]);
    BlockLayout(mcus[i][b], DcBefore(c, mcus, i, b, ci), c.dcTbl[ci], c.acTbl[ci]);
  }

  /** The blocks of the first MCU, and of the second. */
  lemma Blocks0()
    ensures BlockOps(Config(), Mcus(), 0, 0) + BlockOps(Config(), Mcus(), 0, 1) + BlockOps(Config(), Mcus(), 0, 2)
      == Ops0()
    ensures forall b :: 0 <= b < 3 ==> Fine(Config(), Mcus(), 0, b)
  {
    hide AcLayout, BlockOps, Fine;
    BlockIs(0, 0, 5); BlockIs(0, 1, -1); BlockIs(0, 2, 2047);
    TwoAc(5, 1); NoAc(4, 1); LastAc(2047, 0);
  }

  lemma Blocks1()
    ensures BlockOps(Config(), Mcus(), 1, 0) + BlockOps(Config(), Mcus(), 1, 1) + BlockOps(Config(), Mcus(), 1, 2)
      == Ops1()
    ensures forall b :: 0 <= b < 3 ==> Fine(Config(), Mcus(), 1, b)
  {
    hide AcLayout, BlockOps, Fine;
    BlockIs(1, 0, 5); BlockIs(1, 1, 0); BlockIs(1, 2, 0);
    NoAc(5, 1); NoAc(0, 0);
  }

  lemma Intervals()
    ensures Layout(Config(), Mcus(), 0, 3) == Ops0()
    ensures Layout(Config(), Mcus(), 1, 3) == Ops0() + [Restart(0)] + Ops1()
  {
    hide Layout, BlockOps, Fine, Ops0, Ops1, Mcus;
    var c, mcus := Config(), Mcus();
    Blocks0();
    Blocks1();
    LayoutStep(c, mcus, 0, 0); LayoutStep(c, mcus, 0, 1); LayoutStep(c, mcus, 0, 2);
    assert [] + BlockOps(c, mcus, 0, 0) == BlockOps(c, mcus, 0, 0);
    LayoutStep(c, mcus, 1, 0); LayoutStep(c, mcus, 1, 1); LayoutStep(c, mcus, 1, 2);
    var before := Ops0() + [Restart(0)];
    var x, y, z := BlockOps(c, mcus, 1, 0), BlockOps(c, mcus, 1, 1), BlockOps(c, mcus, 1, 2);
    assert before + x + y + z == before + (x + y + z);
  }

  lemma ScanIs()
    ensures StateOk(Config(), StartState(Config()))
    ensures !ScanTrace(Config(), StartState(Config()), Mcus()).bad
    ensures ScanTrace(Config(), StartState(Config()), Mcus()).ops == Ops0() + [Restart(0)] + Ops1()
  {
    hide ScanTrace, Layout, BlockOps, Fine, StartState, Ops0, Ops1;
    Blocks0();
    Blocks1();
    Intervals();
    ScanLayout(Config(), Mcus());
  }

  // ---- the bits ----

  lemma DcSymbols(t: Tables)
    requires Derived(t)
    ensures Puts(t, Huff(true, 0, 3), 0, 2) && Puts(t, Huff(true, 0, 0), 1, 2) && Puts(t, Huff(true, 0, 1), 4, 3)
    ensures Puts(t, Huff(true, 1, 11), 0, 1) && Puts(t, Huff(true, 1, 0), 4, 3)
  {
    hide Puts, DerivedFrom, Table;
    forall p: nat | p < 3 { PutsSymbol(t, true, 0, 0, 2, 1, [3, 0, 1], p); }
    forall p: nat | p < 2 { PutsSymbol(t, true, 1, 1, 0, 1, [11, 0], p); }
    assert [3, 0, 1][0] == 3 && [3, 0, 1][1] == 0 && [3, 0, 1][2] == 1 && [11, 0][0] == 11 && [11, 0][1] == 0;
  }

  lemma AcSymbols(t: Tables)
    requires Derived(t)
    ensures Puts(t, Huff(false, 0, 0xE1), 0, 1) && Puts(t, Huff(false, 0, 0xF0), 2, 2)
    ensures Puts(t, Huff(false, 0, 0x00), 6, 3)
    ensures Puts(t, Huff(false, 1, 0x01), 0, 2) && Puts(t, Huff(false, 1, 0x22), 1, 2)
    ensures Puts(t, Huff(false, 1, 0x00), 2, 2) && Puts(t, Huff(false, 1, 0xF0), 6, 3)
  {
    hide Puts, DerivedFrom, Table;
    var a0, a1 := [0xE1, 0xF0, 0x00], [0x01, 0x22, 0x00, 0xF0];
    forall p: nat | p < 3 { PutsSymbol(t, false, 0, 1, 1, 1, a0, p); }
    forall p: nat | p < 4 { PutsSymbol(t, false, 1, 0, 3, 1, a1, p); }
    assert a0[0] == 0xE1 && a0[1] == 0xF0 && a0[2] == 0x00;
    assert a1[0] == 0x01 && a1[1] == 0x22 && a1[2] == 0x00 && a1[3] == 0xF0;
  }

  lemma Values(t: Tables)
    requires TablesOk(t)
    ensures Puts(t, Raw(5, 3), 5, 3) && Puts(t, Raw(-2, 1), 0, 1) && Puts(t, Raw(3, 2), 3, 2)
    ensures Puts(t, Raw(2047, 11), 2047, 11) && Puts(t, Raw(1, 1), 1, 1)
  {
    hide Puts, Pow2;
    Powers();
    PutsValue(t, 5, 5, 3);
    PutsValue(t, -2, 0, 1);
    PutsValue(t, 3, 3, 2);
    PutsValue(t, 2047, 2047, 11);
    PutsValue(t, 1, 1, 1);
  }

  /** The text of an interval, operation by operation. */
  lemma Text0(t: Tables)
    requires TablesOk(t) && Derived(t)
    ensures Gives(t, Ops0(), 1402208780201, 43)
  {
    hide Puts, Gives, Pow2, Derived;
    DcSymbols(t);
    AcSymbols(t);
    Values(t);
    Powers();
    GivesNothing(t);
    var ops := Ops0();
    assert ops[..0] == [] && ops[..18] == ops;
    forall k | 0 <= k < 18 ensures ops[..k + 1] == ops[..k] + [ops[k]] {}
    Append(t, ops[..0], 0, 0, Huff(true, 0, 3), 0, 2, 4, 0);
    Append(t, ops[..1], 0, 2, Raw(5, 3), 5, 3, 8, 5);
    Append(t, ops[..2], 5, 5, Huff(false, 1, 0x01), 0, 2, 4, 20);
    Append(t, ops[..3], 20, 7, Raw(-2, 1), 0, 1, 2, 40);
    Append(t, ops[..4], 40, 8, Huff(false, 1, 0xF0), 6, 3, 8, 326);
    Append(t, ops[..5], 326, 11, Huff(false, 1, 0x22), 1, 2, 4, 1305);
    Append(t, ops[..6], 1305, 13, Raw(3, 2), 3, 2, 4, 5223);
    Append(t, ops[..7], 5223, 15, Huff(false, 1, 0x00), 2, 2, 4, 20894);
    Append(t, ops[..8], 20894, 17, Huff(true, 0, 1), 4, 3, 8, 167156);
    Append(t, ops[..9], 167156, 20, Raw(-2, 1), 0, 1, 2, 334312);
    Append(t, ops[..10], 334312, 21, Huff(false, 1, 0x00), 2, 2, 4, 1337250);
    Append(t, ops[..11], 1337250, 23, Huff(true, 1, 11), 0, 1, 2, 2674500);
    Append(t, ops[..12], 2674500, 24, Raw(2047, 11), 2047, 11, 2048, 5477378047);
    Append(t, ops[..13], 5477378047, 35, Huff(false, 0, 0xF0), 2, 2, 4, 21909512190);
    Append(t, ops[..14], 21909512190, 37, Huff(false, 0, 0xF0), 2, 2, 4, 87638048762);
    Append(t, ops[..15], 87638048762, 39, Huff(false, 0, 0xF0), 2, 2, 4, 350552195050);
    Append(t, ops[..16], 350552195050, 41, Huff(false, 0, 0xE1), 0, 1, 2, 701104390100);
    Append(t, ops[..17], 701104390100, 42, Raw(1, 1), 1, 1, 2, 1402208780201);
  }

  lemma Text1(t: Tables)
    requires TablesOk(t) && Derived(t)
    ensures Gives(t, Ops1(), 22950, 17)
  {
    hide Puts, Gives, Pow2, Derived;
    DcSymbols(t);
    AcSymbols(t);
    Values(t);
    Powers();
    GivesNothing(t);
    var ops := Ops1();
    assert ops[..0] == [] && ops[..7] == ops;
    forall k | 0 <= k < 7 ensures ops[..k + 1] == ops[..k] + [ops[k]] {}
    Append(t, ops[..0], 0, 0, Huff(true, 0, 3), 0, 2, 4, 0);
    Append(t, ops[..1], 0, 2, Raw(5, 3), 5, 3, 8, 5);
    Append(t, ops[..2], 5, 5, Huff(false, 1, 0x00), 2, 2, 4, 22);
    Append(t, ops[..3], 22, 7, Huff(true, 0, 0), 1, 2, 4, 89);
    Append(t, ops[..4], 89, 9, Huff(false, 1, 0x00), 2, 2, 4, 358);
    Append(t, ops[..5], 358, 11, Huff(true, 1, 0), 4, 3, 8, 2868);
    Append(t, ops[..6], 2868, 14, Huff(false, 0, 0x00), 6, 3, 8, 22950);
  }

  // ---- the bytes ----

  /** The complete bytes of n bits, the first one taken off. */
  lemma FirstByte(v: nat, first: byte, rest: nat, n: nat, pow: nat)
    requires pow == Pow2(n) && v == first * pow + rest && rest < pow
    ensures FullBytes(ToBits(v, n + 8)) == [first] + FullBytes(ToBits(rest, n))
  {
    hide *;
    assert Pow2(8) == 256 by { Powers(); }
    Join(first, 8, rest, n);
    Swap(8, n);
    BytesStep(ToBits(first, 8) + ToBits(rest, n));
    ValueOfSmall(first, 8);
    assert (ToBits(first, 8) + ToBits(rest, n))[..8] == ToBits(first, 8);
    assert (ToBits(first, 8) + ToBits(rest, n))[8..] == ToBits(rest, n);
  }

  lemma Swap(a: nat, b: nat)
    ensures a + b == b + a
  {}

  /** An interval is written as the bytes of its text and seven ones, stuffed. */
  lemma IntervalBytes(t: Tables, before: seq<byte>, ops: seq<Op>, v: nat, n: nat)
    requires TablesOk(t) && Gives(t, ops, v, n)
    ensures OpsOk(ops)
    ensures var e := Run(t, Emission(before, [], false), ops);
      !e.missing && e.bytes + Flush(e.pending) == before + Stuff(FullBytes(ToBits(v * 128 + 127, n + 7)))
  {
    hide *;
    assert Codable(t, ops) && BitsOf(t, ops) == ToBits(v, n) && v < Pow2(n) by { GivesIs(t, ops, v, n); }
    RunConcatenates(t, ops);
    RunShift(t, Emission([], [], false), ops, before);
    assert before + [] == before;
    var bits := ToBits(v, n);
    SevenOnes();
    assert 127 < Pow2(7);
    Join(v, n, 127, 7);
    FullBytesConcat(bits, Ones(7));
    StuffConcat(FullBytes(bits), FullBytes(Leftover(bits) + Ones(7)));
    FlushIs(Leftover(bits));
    var s, f := Stuff(FullBytes(bits)), Flush(Leftover(bits));
    assert before + s + f == before + (s + f);
  }

  lemma GivesIs(t: Tables, ops: seq<Op>, v: nat, n: nat)
    requires TablesOk(t) && Gives(t, ops, v, n)
    ensures Codable(t, ops) && BitsOf(t, ops) == ToBits(v, n) && v < Pow2(n)
  {}

  lemma SevenOnes()
    ensures Pow2(7) == 128 && Ones(7) == ToBits(127, 7)
  {
    assert Ones(7) == ToBits(127, 7);
  }

  lemma FlushIs(pending: seq<bool>)
    ensures Flush(pending) == Stuff(FullBytes(pending + Ones(7)))
  {}

  lemma StuffThree(a: byte, b: byte, c: byte)
    ensures Stuff([a, b, c]) == StuffByte(a) + StuffByte(b) + StuffByte(c)
  {
    hide *;
    StuffStep([a, b, c]); StuffStep([b, c]); StuffStep([c]); StuffStep([]);
    assert [a, b, c][1..] == [b, c] && [b, c][1..] == [c] && [c][1..] == [];
  }

  /** Powers of two eight apart. */
  lemma NextPower(n: nat)
    ensures Pow2(n + 8) == 256 * Pow2(n)
  {
    hide Pow2;
    Powers();
    Pow2Add(8, n);
  }

  lemma Bytes0()
    ensures Stuff(FullBytes(ToBits(179482723865855, 50))) == [0x28, 0xCF, 0x44, 0xFF, 0x00, 0xF5, 0x3F]
  {
    hide Pow2, ToBits, FullBytes, Stuff;
    Powers();
    NextPower(2); NextPower(10); NextPower(18); NextPower(26); NextPower(34);
    FirstByte(179482723865855, 0x28, 3560863421695, 42, 4398046511104);
    FirstByte(3560863421695, 0xCF, 4630500607, 34, 17179869184);
    FirstByte(4630500607, 0x44, 67097855, 26, 67108864);
    FirstByte(67097855, 0xFF, 251135, 18, 262144);
    FirstByte(251135, 0xF5, 255, 10, 1024);
    FirstByte(255, 0x3F, 3, 2, 4);
    BytesStep(ToBits(3, 2));
    StuffThree(0x28, 0xCF, 0x44);
    StuffThree(0xFF, 0xF5, 0x3F);
    StuffConcat([0x28, 0xCF, 0x44], [0xFF, 0xF5, 0x3F]);
    assert [0x28, 0xCF, 0x44] + [0xFF, 0xF5, 0x3F] == [0x28, 0xCF, 0x44, 0xFF, 0xF5, 0x3F];
    assert FullBytes(ToBits(179482723865855, 50)) == [0x28, 0xCF, 0x44, 0xFF, 0xF5, 0x3F];
  }

  lemma Bytes1()
    ensures Stuff(FullBytes(ToBits(2937727, 24))) == [0x2C, 0xD3, 0x7F]
  {
    hide Pow2, ToBits, FullBytes, Stuff;
    Powers();
    NextPower(0); NextPower(8);
    FirstByte(2937727, 0x2C, 54143, 16, 65536);
    FirstByte(54143, 0xD3, 127, 8, 256);
    FirstByte(127, 0x7F, 0, 0, 1);
    BytesStep(ToBits(0, 0));
    assert FullBytes(ToBits(2937727, 24)) == [0x2C, 0xD3, 0x7F];
    StuffThree(0x2C, 0xD3, 0x7F);
  }

  /** The tables can be used, and these are the bytes of the scan. */
  lemma ExampleBytes(t: Tables)
    ensures AllUsable(Config(), Slots(), 2)
    ensures TablesOk(t) && AllDerived(Config(), Slots(), t, 2) ==>
      ScanBytes(Config(), t, Mcus())
      == [0x28, 0xCF, 0x44, 0xFF, 0x00, 0xF5, 0x3F, 0xFF, 0xD0, 0x2C, 0xD3, 0x7F]
  {
    hide AllUsable, AllDerived, Derived, ScanBytes;
    SlotsUsable();
    if TablesOk(t) && AllDerived(Config(), Slots(), t, 2) {
      DerivedHere(t);
      DerivedBytes(t);
    }
  }

  lemma DerivedBytes(t: Tables)
    requires TablesOk(t) && Derived(t)
    ensures ScanBytes(Config(), t, Mcus())
      == [0x28, 0xCF, 0x44, 0xFF, 0x00, 0xF5, 0x3F, 0xFF, 0xD0, 0x2C, 0xD3, 0x7F]
  {
    hide ScanTrace, Run, TablesOk, Gives, Derived, Ops0, Ops1, StartState, Flush, Stuff, FullBytes, ToBits, OpsOk;
    ScanIs();
    Text0(t);
    Text1(t);
    Bytes0();
    Bytes1();
    var start := Emission([], [], false);
    IntervalBytes(t, [], Ops0(), 1402208780201, 43);
    OpsOkNil();
    OpsOkConcat(Ops0(), [Restart(0)]);
    var e := Run(t, start, Ops0());
    RunSnoc(t, start, Ops0(), Restart(0));
    var before := e.bytes + Flush(e.pending) + [0xFF, 0xD0];
    IntervalBytes(t, before, Ops1(), 22950, 17);
    RunConcat(t, start, Ops0() + [Restart(0)], Ops1());
  }
}
