/** How many bytes an MCU can take at most. */
module McuSizes {
  import opened Bits
  import opened Symbols
  import opened Emissions
  import opened Scans

  /** Four bytes for each of at most 1281 operations. */
  const MAX_MCU_BYTES: nat := 5124

  lemma {:induction false} StuffSize(s: seq<byte>)
    ensures |Stuff(s)| <= 2 * |s|
  {
    if s != [] { StuffSize(s[1..]); }
  }

  lemma {:induction false} FullBytesSize(b: seq<bool>)
    ensures |FullBytes(b)| == |b| / 8
  {
    if |b| >= 8 { FullBytesSize(b[8..]); }
  }

  lemma StuffedSize(b: seq<bool>)
    requires |b| <= 23
    ensures |Stuff(FullBytes(b))| <= 4
    ensures |b| <= 14 ==> |Stuff(FullBytes(b))| <= 2
  {
    hide Stuff, FullBytes;
    FullBytesSize(b);
    StuffSize(FullBytes(b));
  }

  lemma OpSize(t: Tables, op: Op)
    requires TablesOk(t) && OpOk(op) && !op.Restart?
    ensures |OpBits(t, op)| <= 16
  {
    hide ToBits;
  }

  /** An operation adds at most four bytes. */
  lemma StepSize(t: Tables, e: Emission, op: Op)
    requires TablesOk(t) && OpOk(op) && |e.pending| < 8
    ensures |Step(t, e, op).bytes| <= |e.bytes| + 4
  {
    hide Stuff, FullBytes, OpBits, Leftover, HasCode;
    if op.Restart? {
      StuffedSize(e.pending + Ones(7));
    } else {
      OpSize(t, op);
      StuffedSize(e.pending + OpBits(t, op));
    }
  }

  lemma {:induction false} RunSize(t: Tables, e: Emission, ops: seq<Op>)
    requires TablesOk(t) && OpsOk(ops) && |e.pending| < 8
    ensures |Run(t, e, ops).bytes| <= |e.bytes| + 4 * |ops|
  {
    hide Run, Step;
    if ops == [] {
      RunNil(t, e);
    } else {
      var ops', op := ops[..|ops| - 1], ops[|ops| - 1];
      assert ops == ops' + [op];
      RunSize(t, e, ops');
      RunExtends(t, e, ops');
      RunSnoc(t, e, ops', op);
      StepSize(t, Run(t, e, ops'), op);
    }
  }

  lemma {:induction false} AcOps(block: Block, tbl: nat, k: nat, r: nat)
    requires 1 <= k <= 64
    ensures |AcTrace(block, tbl, k, r).ops| <= 2 * (64 - k) + r
    decreases 64 - k, r
  {
    hide AcTrace, Zigzag, BitLen, Extra;
    AcStep(block, tbl, k, r);
    if k < 64 {
      if Zigzag(block, k) == 0 {
        AcOps(block, tbl, k + 1, r + 1);
      } else if r > 15 {
        AcOps(block, tbl, k, r - 16);
      } else {
        AcOps(block, tbl, k + 1, 0);
      }
    }
  }

  /** A block takes at most two operations for each coefficient. */
  lemma BlockOps(block: Block, lastDc: int, dcTbl: nat, acTbl: nat)
    ensures |BlockTrace(block, lastDc, dcTbl, acTbl).ops| <= 128
  {
    hide AcTrace, BitLen, Extra;
    AcOps(block, acTbl, 1, 0);
  }

  lemma {:induction false} BlocksOps(c: ScanConfig, lastDc: seq<int>, mcu: Mcu, b: nat)
    requires ConfigOk(c) && McuOk(c, mcu) && |lastDc| == c.comps && b <= |mcu|
    ensures |BlocksTrace(c, lastDc, mcu, b).ops| <= 128 * (|mcu| - b)
    decreases |mcu| - b
  {
    hide BlockTrace;
    if b < |mcu| {
      var ci := c.membership[b];
      BlockOps(mcu[b], lastDc[ci], c.dcTbl[ci], c.acTbl[ci]);
      BlocksOps(c, lastDc[ci := mcu[b][0]], mcu, b + 1);
    }
  }

  /** No MCU takes more than 5124 bytes, whatever the tables. */
  lemma McuSize(c: ScanConfig, s: ScanState, mcu: Mcu, t: Tables, pending: seq<bool>)
    requires ConfigOk(c) && McuOk(c, mcu) && StateOk(c, s) && TablesOk(t) && |pending| < 8
    requires OpsOk(McuTrace(c, s, mcu).ops)
    ensures |Run(t, Emission([], pending, false), McuTrace(c, s, mcu).ops).bytes| <= 5124
  {
    hide Run, BlocksTrace, OpsOk, TablesOk;
    BlocksOps(c, Prediction(c, s), mcu, 0);
    RunSize(t, Emission([], pending, false), McuTrace(c, s, mcu).ops);
  }
}
