/** What the entropy coder says about a block: the T.81 symbols and additional bits of its coefficients. */
module Symbols {
  import opened Bits
  import opened ZigzagScan

  const BITS_IN_JSAMPLE := 8
  const MAX_COEF_BITS: nat := if BITS_IN_JSAMPLE == 8 then 10 else 14

  const MAX_COMPS_IN_SCAN := 4
  const C_MAX_BLOCKS_IN_MCU := 10

  type Block = b: seq<int> | |b| == 64 witness seq(64, i => 0)

  type Mcu = seq<Block>

  /** A block without AC coefficients. */
  function DcBlock(v: int): Block {
    seq(64, i => if i == 0 then v else 0)
  }

  /** One thing to write: a Huffman-coded symbol, additional bits, or a restart marker. */
  datatype Op = Huff(isDC: bool, tbl: nat, sym: nat) | Raw(value: int, size: nat) | Restart(num: nat)

  /** What a piece of the image asks to write; bad when it ends in an out-of-range coefficient. */
  datatype Trace = Trace(ops: seq<Op>, bad: bool)

  const ZRL: nat := 0xF0  // a run of sixteen zeros
  const EOB: nat := 0  // end of block

  function Then(a: Trace, b: Trace): Trace {
    if a.bad then a else Trace(a.ops + b.ops, b.bad)
  }

  function Abs(v: int): nat { if v < 0 then -v else v }

  /** The additional bits: the value itself, or the complement of its magnitude. */
  function Extra(v: int): Op {
    Raw(if v < 0 then v - 1 else v, BitLen(Abs(v)))
  }

  function Zigzag(block: Block, k: nat): int
    requires k < 64
  {
    block[NaturalOrder(k)]
  }

  /** Section F.1.2.1: the difference of the DC coefficient. */
  function DcTrace(diff: int, tbl: nat): Trace {
    var nbits := BitLen(Abs(diff));
    if nbits > MAX_COEF_BITS + 1 then Trace([], true)
    else Trace([Huff(true, tbl, nbits)] + if nbits > 0 then [Extra(diff)] else [], false)
  }

  /** Section F.1.2.2: the AC coefficients from zigzag position k on, after a run of r zeros. */
  function AcTrace(block: Block, tbl: nat, k: nat, r: nat): Trace
    requires 1 <= k <= 64
    decreases 64 - k, r
  {
    if k == 64 then Trace(if r > 0 then [Huff(false, tbl, EOB)] else [], false)
    else
      var v := Zigzag(block, k);
      if v == 0 then AcTrace(block, tbl, k + 1, r + 1)
      else if r > 15 then Then(Trace([Huff(false, tbl, ZRL)], false), AcTrace(block, tbl, k, r - 16))
      else if BitLen(Abs(v)) > MAX_COEF_BITS then Trace([], true)
      else Then(Trace([Huff(false, tbl, 16 * r + BitLen(Abs(v))), Extra(v)], false), AcTrace(block, tbl, k + 1, 0))
  }

  function BlockTrace(block: Block, lastDc: int, dcTbl: nat, acTbl: nat): Trace {
    Then(DcTrace(block[0] - lastDc, dcTbl), AcTrace(block, acTbl, 1, 0))
  }

  /** The coefficients the encoder accepts. */
  ghost predicate InRange(block: Block, lastDc: int) {
    && BitLen(Abs(block[0] - lastDc)) <= MAX_COEF_BITS + 1
    && forall k :: 1 <= k < 64 ==> BitLen(Abs(Zigzag(block, k))) <= MAX_COEF_BITS
  }

  ghost predicate OpOk(op: Op) {
    match op
    case Huff(_, tbl, sym) => tbl < 4 && sym < 256
    case Raw(_, size) => 1 <= size <= 16
    case Restart(num) => num < 8
  }

  ghost predicate OpsOk(ops: seq<Op>) {
    forall i :: 0 <= i < |ops| ==> OpOk(ops[i])
  }

  lemma OpsOkConcat(a: seq<Op>, b: seq<Op>)
    ensures OpsOk(a + b) <==> OpsOk(a) && OpsOk(b)
  {
    if OpsOk(a + b) {
      forall i | 0 <= i < |a| ensures OpOk(a[i]) { assert (a + b)[i] == a[i]; }
      forall i | 0 <= i < |b| ensures OpOk(b[i]) { assert (a + b)[|a| + i] == b[i]; }
    }
  }

  /** One step of AcTrace, by cases. */
  lemma AcStep(block: Block, tbl: nat, k: nat, r: nat)
    requires 1 <= k <= 64
    ensures var tr := AcTrace(block, tbl, k, r);
      if k == 64 then tr == Trace(if r > 0 then [Huff(false, tbl, EOB)] else [], false)
      else
        var v := Zigzag(block, k);
        if v == 0 then tr == AcTrace(block, tbl, k + 1, r + 1)
        else if r > 15 then tr == Then(Trace([Huff(false, tbl, ZRL)], false), AcTrace(block, tbl, k, r - 16))
        else if BitLen(Abs(v)) > MAX_COEF_BITS then tr == Trace([], true)
        else tr == Then(Trace([Huff(false, tbl, 16 * r + BitLen(Abs(v))), Extra(v)], false),
          AcTrace(block, tbl, k + 1, 0))
  {
    hide NaturalOrder, Zigzag, BitLen, Abs, Extra, Then;
  }

  /** The trace of a block is cut short exactly when a coefficient is out of range. */
  lemma {:induction false} AcBad(block: Block, tbl: nat, k: nat, r: nat)
    requires 1 <= k <= 64
    ensures AcTrace(block, tbl, k, r).bad <==> exists j :: k <= j < 64 && BitLen(Abs(Zigzag(block, j))) > MAX_COEF_BITS
    decreases 64 - k, r
  {
    hide AcTrace, NaturalOrder, Zigzag;
    AcStep(block, tbl, k, r);
    if k < 64 {
      if Zigzag(block, k) == 0 {
        AcBad(block, tbl, k + 1, r + 1);
      } else if r > 15 {
        AcBad(block, tbl, k, r - 16);
      } else {
        AcBad(block, tbl, k + 1, 0);
      }
    }
  }

  lemma BlockBad(block: Block, lastDc: int, dcTbl: nat, acTbl: nat)
    ensures BlockTrace(block, lastDc, dcTbl, acTbl).bad <==> !InRange(block, lastDc)
  {
    hide AcTrace, NaturalOrder, Zigzag;
    AcBad(block, acTbl, 1, 0);
  }

  /** The symbols stay within the tables and the additional bits within the packer's limit. */
  lemma {:induction false} AcOpsOk(block: Block, tbl: nat, k: nat, r: nat)
    requires 1 <= k <= 64 && tbl < 4
    ensures OpsOk(AcTrace(block, tbl, k, r).ops)
    decreases 64 - k, r
  {
    hide AcTrace, NaturalOrder, Zigzag;
    AcStep(block, tbl, k, r);
    if k < 64 {
      var v := Zigzag(block, k);
      if v == 0 {
        AcOpsOk(block, tbl, k + 1, r + 1);
      } else if r > 15 {
        AcOpsOk(block, tbl, k, r - 16);
      } else {
        AcOpsOk(block, tbl, k + 1, 0);
      }
    }
  }

  lemma BlockOpsOk(block: Block, lastDc: int, dcTbl: nat, acTbl: nat)
    requires dcTbl < 4 && acTbl < 4
    ensures OpsOk(BlockTrace(block, lastDc, dcTbl, acTbl).ops)
  {
    hide AcTrace, NaturalOrder, Zigzag;
    AcOpsOk(block, acTbl, 1, 0);
  }
}
