/** Decoding a whole scan (T.81 section F.2.2, figure E.8 for restarts), and the round trip for whole scans. */
module ScanDecoder {
  import opened Bits
  import opened HuffmanTable
  import opened Symbols
  import opened Emissions
  import opened Scans
  import opened BlockDecoder

  /** Decodes the blocks of an MCU from block b on. */
  ghost function DecodeBlocks(c: ScanConfig, h: CodeTables, lastDc: seq<int>, bits: seq<bool>, b: nat)
    : (r: Option<(Mcu, seq<int>, seq<bool>)>)
    requires ConfigOk(c) && CodeTablesOk(h) && |lastDc| == c.comps && b <= |c.membership|
    ensures r.Some? ==> |r.value.1| == c.comps
    decreases |c.membership| - b
  {
    if b == |c.membership| then Some(([], lastDc, bits))
    else
      var ci := c.membership[b];
      match DecodeBlock(h.dc[c.dcTbl[ci]], h.ac[c.acTbl[ci]], lastDc[ci], bits)
      case None => None
      case Some((block, rest)) =>
        match DecodeBlocks(c, h, lastDc[ci := block[0]], rest, b + 1)
        case None => None
        case Some((blocks, lastDc', rest')) => Some(([block] + blocks, lastDc', rest'))
  }

  /** What the decoder predicts from at the start of a scan and after a restart marker (T.81 section F.2.1.3.1). */
  function Reset(n: nat): (s: seq<int>) {
    seq(n, i => 0)
  }

  /** Decodes count MCUs: bits are left of the current segment, tail is the input from the next marker on. */
  ghost function DecodeMcus(c: ScanConfig, h: CodeTables, s: ScanState, bits: seq<bool>, tail: seq<byte>,
                            count: nat): Option<seq<Mcu>>
    requires ConfigOk(c) && CodeTablesOk(h) && StateOk(c, s)
    decreases count
  {
    if count == 0 then Some([])
    else if RestartDue(c, s) then
      if |tail| >= 2 && tail[0] == 0xFF && tail[1] == 0xD0 + s.nextRestart then
        var (data, tail') := Unstuff(tail[2..]);
        DecodeOne(c, h, ScanState(Reset(c.comps), c.restartInterval, (s.nextRestart + 1) % 8), BytesToBits(data), tail',
          count)
      else None
    else DecodeOne(c, h, s, bits, tail, count)
  }

  /** The next MCU, then the others. */
  ghost function DecodeOne(c: ScanConfig, h: CodeTables, s: ScanState, bits: seq<bool>, tail: seq<byte>,
                           count: nat): Option<seq<Mcu>>
    requires ConfigOk(c) && CodeTablesOk(h) && StateOk(c, s) && count > 0 && !RestartDue(c, s)
    decreases count, 0
  {
    match DecodeBlocks(c, h, s.lastDc, bits, 0)
    case None => None
    case Some((mcu, lastDc, rest)) =>
      var s' := ScanState(lastDc, if c.restartInterval > 0 then s.restartsToGo - 1 else s.restartsToGo, s.nextRestart);
      match DecodeMcus(c, h, s', rest, tail, count - 1)
      case None => None
      case Some(mcus) => Some([mcu] + mcus)
  }

  /** Decodes the entropy-coded data of a scan of count MCUs. */
  ghost function DecodeScan(c: ScanConfig, h: CodeTables, input: seq<byte>, count: nat): Option<seq<Mcu>>
    requires ConfigOk(c) && CodeTablesOk(h)
  {
    var (data, tail) := Unstuff(input);
    DecodeMcus(c, h, ScanState(Reset(c.comps), c.restartInterval, 0), BytesToBits(data), tail, count)
  }

  // ---- the encoder's byte stream, segment by segment ----

  /** All operations can be written. */
  ghost predicate Writable(t: Tables, ops: seq<Op>)
    requires TablesOk(t)
  {
    forall i :: 0 <= i < |ops| ==> OpOk(ops[i]) && HasCode(t, ops[i])
  }

  /** Bits up to the next restart marker. */
  ghost function SegmentBits(t: Tables, ops: seq<Op>): seq<bool>
    requires TablesOk(t) && Writable(t, ops)
  {
    if ops == [] || ops[0].Restart? then [] else OpBits(t, ops[0]) + SegmentBits(t, ops[1..])
  }

  /** The complete output for some operations, starting with given pending bits. */
  ghost function Output(t: Tables, pending: seq<bool>, ops: seq<Op>): seq<byte>
    requires TablesOk(t) && OpsOk(ops)
  {
    var e := Run(t, Emission([], pending, false), ops);
    e.bytes + Flush(e.pending)
  }

  lemma WritableOk(t: Tables, ops: seq<Op>)
    requires TablesOk(t) && Writable(t, ops)
    ensures OpsOk(ops)
  {}

  /** The bytes from the next restart marker on. */
  ghost function FromMarker(t: Tables, ops: seq<Op>): seq<byte>
    requires TablesOk(t) && Writable(t, ops)
  {
    if ops == [] then []
    else if ops[0].Restart? then WritableOk(t, ops[1..]); Marker(ops[0].num) + Output(t, [], ops[1..])
    else FromMarker(t, ops[1..])
  }

  lemma SegmentStep(t: Tables, op: Op, ops: seq<Op>)
    requires TablesOk(t) && Writable(t, [op] + ops)
    ensures Writable(t, ops) && OpsOk(ops) && OpOk(op) && HasCode(t, op) && (op.Restart? ==> op.num < 8)
    ensures SegmentBits(t, [op] + ops) == if op.Restart? then [] else OpBits(t, op) + SegmentBits(t, ops)
    ensures FromMarker(t, [op] + ops) == if op.Restart? then Marker(op.num) + Output(t, [], ops) else FromMarker(t, ops)
  {
    hide HasCode, OpBits, Output;
    assert ([op] + ops)[0] == op && ([op] + ops)[1..] == ops;
    forall i | 0 <= i < |ops| ensures OpOk(ops[i]) && HasCode(t, ops[i]) {
      assert ([op] + ops)[i + 1] == ops[i];
    }
  }

  /** The first operation and the rest, the rest as if nothing had been written before. */
  lemma RunFirst(t: Tables, pending: seq<bool>, op: Op, ops: seq<Op>)
    requires TablesOk(t) && OpOk(op) && OpsOk(ops)
    ensures OpsOk([op] + ops)
    ensures var e1 := Step(t, Emission([], pending, false), op);
      !e1.missing ==>
        var e3 := Run(t, Emission([], e1.pending, false), ops);
        Run(t, Emission([], pending, false), [op] + ops) == e3.(bytes := e1.bytes + e3.bytes)
  {
    hide Run, OpsOk, Step;
    var e := Emission([], pending, false);
    OneOp(op);
    OpsOkConcat([op], ops);
    RunConcat(t, e, [op], ops);
    assert [] + [op] == [op];
    RunNil(t, e);
    RunSnoc(t, e, [], op);
    var e1 := Step(t, e, op);
    assert e1.bytes + [] == e1.bytes;
    RunShift(t, Emission([], e1.pending, false), ops, e1.bytes);
  }

  lemma StepIs(t: Tables, pending: seq<bool>, op: Op)
    requires TablesOk(t) && OpOk(op) && HasCode(t, op)
    ensures Step(t, Emission([], pending, false), op)
      == if op.Restart? then Emission(Flush(pending) + Marker(op.num), [], false)
         else Emission(Stuff(FullBytes(pending + OpBits(t, op))), Leftover(pending + OpBits(t, op)), false)
  {
    hide OpBits, Stuff, FullBytes, Leftover, Flush, Marker, HasCode;
  }

  lemma OutputStep(t: Tables, pending: seq<bool>, op: Op, ops: seq<Op>)
    requires TablesOk(t) && OpOk(op) && OpsOk(ops) && HasCode(t, op)
    ensures OpsOk([op] + ops)
    ensures Output(t, pending, [op] + ops) ==
            if op.Restart? then Flush(pending) + (Marker(op.num) + Output(t, [], ops))
            else Stuff(FullBytes(pending + OpBits(t, op))) + Output(t, Leftover(pending + OpBits(t, op)), ops)
  {
    hide Run, Step, OpsOk, OpBits, Stuff, FullBytes, Leftover, Flush, Marker, HasCode;
    RunFirst(t, pending, op, ops);
    StepIs(t, pending, op);
    var e1 := Step(t, Emission([], pending, false), op);
    var e3 := Run(t, Emission([], e1.pending, false), ops);
    assert e1.bytes + e3.bytes + Flush(e3.pending) == e1.bytes + (e3.bytes + Flush(e3.pending));
    if op.Restart? { Grouped(Flush(pending), Marker(op.num), e3.bytes + Flush(e3.pending)); }
  }

  lemma Grouped(a: seq<byte>, b: seq<byte>, c: seq<byte>)
    ensures a + b + c == a + (b + c)
  {}

  lemma OneOp(op: Op)
    requires OpOk(op)
    ensures OpsOk([op])
  {}

  /** Flushing pads the last byte with fewer than eight ones. */
  lemma FlushPads(pending: seq<bool>) returns (k: nat)
    requires |pending| < 8
    ensures k < 8 && BytesToBits(FullBytes(pending + Ones(7))) == pending + Ones(k)
  {
    hide BytesToBits, FullBytes;
    var all := pending + Ones(7);
    BytesRoundTrip(all);
    var whole := BytesToBits(FullBytes(all));
    k := 7 - |Leftover(all)|;
    assert whole == all[..|pending| + k];
    assert Ones(7)[..k] == Ones(k);
  }

  /** A marker ends the data. */
  lemma UnstuffMarker(num: nat, rest: seq<byte>)
    requires num < 8
    ensures Unstuff(Marker(num) + rest) == ([], Marker(num) + rest)
  {}

  lemma UnstuffFlush(pending: seq<bool>, rest: seq<byte>) returns (k: nat)
    requires |pending| < 8 && Unstuff(rest) == ([], rest)
    ensures k < 8
    ensures var (data, tail) := Unstuff(Flush(pending) + rest); BytesToBits(data) == pending + Ones(k) && tail == rest
  {
    hide Unstuff, Stuff, FullBytes, BytesToBits, Ones;
    k := FlushPads(pending);
    var f := FullBytes(pending + Ones(7));
    UnstuffStuff(f, rest);
    assert f + [] == f;
  }

  lemma UnstuffNil()
    ensures Unstuff([]) == ([], [])
  {}

  /** Unstuffing the output yields the pending bits, the bits of the segment and padding, up to the next marker. */
  lemma {:induction false} Stream(t: Tables, pending: seq<bool>, ops: seq<Op>) returns (k: nat)
    requires TablesOk(t) && Writable(t, ops) && OpsOk(ops) && |pending| < 8
    ensures k < 8
    ensures var (data, tail) := Unstuff(Output(t, pending, ops));
      BytesToBits(data) == pending + SegmentBits(t, ops) + Ones(k) && tail == FromMarker(t, ops)
    decreases |ops|
  {
    hide *;
    if ops == [] {
      k := StreamEnd(t, pending);
    } else {
      var op, ops' := ops[0], ops[1..];
      assert ops == [op] + ops';
      SegmentStep(t, op, ops');
      OutputStep(t, pending, op, ops');
      if op.Restart? {
        UnstuffMarker(op.num, Output(t, [], ops'));
        k := UnstuffFlush(pending, Marker(op.num) + Output(t, [], ops'));
        assert pending + [] == pending;
      } else {
        var all := pending + OpBits(t, op);
        var data, tail := Unstuff(Output(t, Leftover(all), ops')).0, Unstuff(Output(t, Leftover(all), ops')).1;
        k := Stream(t, Leftover(all), ops');
        UnstuffStuff(FullBytes(all), Output(t, Leftover(all), ops'));
        BytesToBitsConcat(FullBytes(all), data);
        BytesRoundTrip(all);
        assert BytesToBits(FullBytes(all)) + (Leftover(all) + SegmentBits(t, ops') + Ones(k))
            == BytesToBits(FullBytes(all)) + Leftover(all) + SegmentBits(t, ops') + Ones(k);
        assert pending + (OpBits(t, op) + SegmentBits(t, ops')) == all + SegmentBits(t, ops');
      }
    }
  }

  lemma StreamEnd(t: Tables, pending: seq<bool>) returns (k: nat)
    requires TablesOk(t) && |pending| < 8
    ensures k < 8 && OpsOk([]) && Writable(t, [])
    ensures var (data, tail) := Unstuff(Output(t, pending, []));
      BytesToBits(data) == pending + SegmentBits(t, []) + Ones(k) && tail == FromMarker(t, [])
  {
    hide Unstuff, Stuff, FullBytes, BytesToBits, Ones, Flush, Run;
    UnstuffNil();
    RunNil(t, Emission([], pending, false));
    assert [] + Flush(pending) == Flush(pending) + [];
    assert pending + [] == pending;
    k := UnstuffFlush(pending, []);
  }

  // ---- segments made of blocks ----

  lemma {:induction false} SegmentConcat(t: Tables, a: seq<Op>, b: seq<Op>)
    requires TablesOk(t) && Codable(t, a) && Writable(t, a + b)
    ensures Writable(t, b)
    ensures SegmentBits(t, a + b) == BitsOf(t, a) + SegmentBits(t, b)
    ensures FromMarker(t, a + b) == FromMarker(t, b)
  {
    hide *;
    if a == [] {
      BitsOfNil(t);
      assert a + b == b;
    } else {
      var op, a' := a[0], a[1..];
      assert a == [op] + a' && a + b == [op] + (a' + b);
      BitsOfStep(t, op, a');
      SegmentStep(t, op, a' + b);
      SegmentConcat(t, a', b);
    }
  }

  /** Every component's tables are the decoder's. */
  ghost predicate TablesMatch(c: ScanConfig, t: Tables, h: CodeTables)
    requires ConfigOk(c) && TablesOk(t) && CodeTablesOk(h)
  {
    forall ci :: 0 <= ci < c.comps ==> SlotMatches(t, h, true, c.dcTbl[ci]) && SlotMatches(t, h, false, c.acTbl[ci])
  }

  lemma {:induction false} BlocksDecode(c: ScanConfig, t: Tables, h: CodeTables, lastDc: seq<int>, mcu: Mcu, b: nat,
                                        rest: seq<bool>)
    requires ConfigOk(c) && TablesOk(t) && CodeTablesOk(h) && TablesMatch(c, t, h)
    requires McuOk(c, mcu) && |lastDc| == c.comps && b <= |mcu|
    requires var tr := BlocksTrace(c, lastDc, mcu, b); !tr.bad && Codable(t, tr.ops)
    ensures DecodeBlocks(c, h, lastDc, BitsOf(t, BlocksTrace(c, lastDc, mcu, b).ops) + rest, b)
         == Some((mcu[b..], LastDcAfter(c, lastDc, mcu, b), rest))
    decreases |mcu| - b
  {
    hide Codable, BitsOf, BlockTrace, BlocksTrace, LastDcAfter, DecodeBlocks, DecodeBlock, SlotMatches, WellFormed;
    if b == |mcu| {
      BlocksEnd(c, lastDc, mcu);
      BitsOfNil(t);
      DecodeBlocksEnd(c, h, lastDc, rest);
      assert [] + rest == rest && mcu[b..] == [];
    } else {
      var ci := c.membership[b];
      BlocksStep(c, lastDc, mcu, b);
      var bt, lastDc' := BlockTrace(mcu[b], lastDc[ci], c.dcTbl[ci], c.acTbl[ci]), lastDc[ci := mcu[b][0]];
      var tr' := BlocksTrace(c, lastDc', mcu, b + 1);
      CodableConcat(t, bt.ops, tr'.ops);
      BitsOfConcat(t, bt.ops, tr'.ops);
      var after := BitsOf(t, tr'.ops) + rest;
      assert BitsOf(t, bt.ops + tr'.ops) + rest == BitsOf(t, bt.ops) + after;
      BlockDecodes(t, h, c.dcTbl[ci], c.acTbl[ci], mcu[b], lastDc[ci], after);
      BlocksDecode(c, t, h, lastDc', mcu, b + 1, rest);
      DecodeBlocksStep(c, h, lastDc, BitsOf(t, bt.ops) + after, b, mcu[b], after);
      assert [mcu[b]] + mcu[b + 1..] == mcu[b..];
    }
  }

  lemma DecodeBlocksEnd(c: ScanConfig, h: CodeTables, lastDc: seq<int>, bits: seq<bool>)
    requires ConfigOk(c) && CodeTablesOk(h) && |lastDc| == c.comps
    ensures DecodeBlocks(c, h, lastDc, bits, |c.membership|) == Some(([], lastDc, bits))
  {}

  lemma DecodeBlocksStep(c: ScanConfig, h: CodeTables, lastDc: seq<int>, bits: seq<bool>, b: nat, block: Block,
                         rest: seq<bool>)
    requires ConfigOk(c) && CodeTablesOk(h) && |lastDc| == c.comps && b < |c.membership|
    requires var ci := c.membership[b];
      DecodeBlock(CodeSlot(h, true, c.dcTbl[ci]), CodeSlot(h, false, c.acTbl[ci]), lastDc[ci], bits)
        == Some((block, rest))
    ensures var r := DecodeBlocks(c, h, lastDc[c.membership[b] := block[0]], rest, b + 1);
      DecodeBlocks(c, h, lastDc, bits, b)
      == if r.None? then None else Some(([block] + r.value.0, r.value.1, r.value.2))
  {
    hide DecodeBlock, WellFormed;
  }

  // ---- the round trip ----

  /** Everything in the trace can be written: no coefficient out of range and no symbol without a code. */
  ghost predicate TraceWritable(t: Tables, tr: Trace)
    requires TablesOk(t)
  {
    !tr.bad && Writable(t, tr.ops)
  }

  lemma {:induction false} BlocksCodable(c: ScanConfig, t: Tables, lastDc: seq<int>, mcu: Mcu, b: nat)
    requires ConfigOk(c) && TablesOk(t) && McuOk(c, mcu) && |lastDc| == c.comps && b <= |mcu|
    requires Writable(t, BlocksTrace(c, lastDc, mcu, b).ops)
    ensures Codable(t, BlocksTrace(c, lastDc, mcu, b).ops)
  {
    hide HasCode, BlocksTrace;
    BlocksNoRestart(c, lastDc, mcu, b);
  }

  ghost predicate NoRestart(ops: seq<Op>) {
    forall i :: 0 <= i < |ops| ==> !ops[i].Restart?
  }

  lemma {:induction false} AcNoRestart(block: Block, tbl: nat, k: nat, r: nat)
    requires 1 <= k <= 64
    ensures NoRestart(AcTrace(block, tbl, k, r).ops)
    decreases 64 - k, r
  {
    hide AcTrace, Zigzag, BitLen;
    AcStep(block, tbl, k, r);
    if k < 64 {
      if Zigzag(block, k) == 0 {
        AcNoRestart(block, tbl, k + 1, r + 1);
      } else if r > 15 {
        AcNoRestart(block, tbl, k, r - 16);
      } else {
        AcNoRestart(block, tbl, k + 1, 0);
      }
    }
  }

  lemma {:induction false} BlocksNoRestart(c: ScanConfig, lastDc: seq<int>, mcu: Mcu, b: nat)
    requires ConfigOk(c) && McuOk(c, mcu) && |lastDc| == c.comps && b <= |mcu|
    ensures NoRestart(BlocksTrace(c, lastDc, mcu, b).ops)
    decreases |mcu| - b
  {
    hide BlocksTrace, AcTrace, LastDcAfter;
    if b < |mcu| {
      var ci := c.membership[b];
      BlocksStep(c, lastDc, mcu, b);
      BlocksNoRestart(c, lastDc[ci := mcu[b][0]], mcu, b + 1);
      AcNoRestart(mcu[b], c.acTbl[ci], 1, 0);
    } else {
      BlocksEnd(c, lastDc, mcu);
    }
  }

  lemma WritableConcat(t: Tables, a: seq<Op>, b: seq<Op>)
    requires TablesOk(t)
    ensures Writable(t, a + b) <==> Writable(t, a) && Writable(t, b)
  {
    hide HasCode, OpOk;
    if Writable(t, a + b) {
      forall i | 0 <= i < |a| ensures OpOk(a[i]) && HasCode(t, a[i]) { assert (a + b)[i] == a[i]; }
      forall i | 0 <= i < |b| ensures OpOk(b[i]) && HasCode(t, b[i]) { assert (a + b)[|a| + i] == b[i]; }
    }
  }

  lemma ThenWritable(t: Tables, a: Trace, b: Trace)
    requires TablesOk(t)
    ensures TraceWritable(t, Then(a, b)) <==> TraceWritable(t, a) && TraceWritable(t, b)
  {
    hide Writable;
    WritableConcat(t, a.ops, b.ops);
  }

  /** The decoder, standing where the encoder's output for the remaining MCUs starts, recovers them. */
  lemma {:induction false} McusDecode(c: ScanConfig, t: Tables, h: CodeTables, s: ScanState, mcus: seq<Mcu>, k: nat)
    requires ConfigOk(c) && TablesOk(t) && CodeTablesOk(h) && TablesMatch(c, t, h)
    requires StateOk(c, s) && McusOk(c, mcus)
    requires TraceWritable(t, ScanTrace(c, s, mcus))
    ensures var ops := ScanTrace(c, s, mcus).ops;
      DecodeMcus(c, h, s, SegmentBits(t, ops) + Ones(k), FromMarker(t, ops), |mcus|) == Some(mcus)
    decreases |mcus|, 1
  {
    hide *;
    ScanStep(c, s, mcus);
    WritableIs(t, ScanTrace(c, s, mcus));
    if mcus == [] {
      DecodeNothing(c, h, s, SegmentBits(t, []) + Ones(k), FromMarker(t, []));
    } else {
      var mcu, mcus' := mcus[0], mcus[1..];
      var s0 := AfterRestart(c, s);
      var tr, rest := BlocksTrace(c, s0.lastDc, mcu, 0), ScanTrace(c, NextState(c, s, mcu), mcus');
      McuTraceIs(c, s, mcu);
      ThenWritable(t, McuTrace(c, s, mcu), rest);
      ThenWritable(t, Trace([Restart(s.nextRestart)], false), tr);
      ThenWritable(t, tr, rest);
      ThenAssoc(Trace([Restart(s.nextRestart)], false), tr, rest);
      WritableIs(t, tr);
      WritableIs(t, Then(tr, rest));
      ThenIs([Restart(s.nextRestart)], Then(tr, rest));
      if RestartDue(c, s) {
        var ops := Then(tr, rest).ops;
        SegmentStep(t, Restart(s.nextRestart), ops);
        var k' := Stream(t, [], ops);
        assert [] + SegmentBits(t, ops) == SegmentBits(t, ops);
        FirstMcuDecodes(c, t, h, s, mcus, k');
        DecodeAfterMarker(c, h, s, [] + Ones(k), Output(t, [], ops), |mcus|);
      } else {
        FirstMcuDecodes(c, t, h, s, mcus, k);
        DecodeNoMarker(c, h, s, SegmentBits(t, Then(tr, rest).ops) + Ones(k), FromMarker(t, Then(tr, rest).ops),
          |mcus|);
      }
    }
  }

  /** The state in which the blocks of the next MCU are coded. */
  ghost function AfterRestart(c: ScanConfig, s: ScanState): (s': ScanState)
    requires StateOk(c, s)
    ensures StateOk(c, s') && !RestartDue(c, s') && |s'.lastDc| == c.comps
  {
    if RestartDue(c, s) then ScanState(NoPrediction(c.comps), c.restartInterval, (s.nextRestart + 1) % 8) else s
  }

  lemma McuTraceIs(c: ScanConfig, s: ScanState, mcu: Mcu)
    requires ConfigOk(c) && McuOk(c, mcu) && StateOk(c, s)
    ensures var tr := BlocksTrace(c, AfterRestart(c, s).lastDc, mcu, 0);
      && McuTrace(c, s, mcu) == (if RestartDue(c, s) then Then(Trace([Restart(s.nextRestart)], false), tr) else tr)
    ensures var s0 := AfterRestart(c, s);
      NextState(c, s, mcu) == ScanState(LastDcAfter(c, s0.lastDc, mcu, 0),
                                        if c.restartInterval > 0 then s0.restartsToGo - 1 else s0.restartsToGo,
                                        s0.nextRestart)
    ensures s.nextRestart < 8
  {
    hide BlocksTrace, LastDcAfter;
  }

  lemma WritableIs(t: Tables, tr: Trace)
    requires TablesOk(t) && TraceWritable(t, tr)
    ensures !tr.bad && Writable(t, tr.ops) && OpsOk(tr.ops)
  {}

  lemma DecodeNothing(c: ScanConfig, h: CodeTables, s: ScanState, bits: seq<bool>, tail: seq<byte>)
    requires ConfigOk(c) && CodeTablesOk(h) && StateOk(c, s)
    ensures DecodeMcus(c, h, s, bits, tail, 0) == Some([])
  {}

  lemma DecodeNoMarker(c: ScanConfig, h: CodeTables, s: ScanState, bits: seq<bool>, tail: seq<byte>, count: nat)
    requires ConfigOk(c) && CodeTablesOk(h) && StateOk(c, s) && count > 0 && !RestartDue(c, s)
    ensures AfterRestart(c, s) == s && DecodeMcus(c, h, s, bits, tail, count) == DecodeOne(c, h, s, bits, tail, count)
  {
    hide DecodeOne, ConfigOk, CodeTablesOk;
  }

  lemma DecodeAfterMarker(c: ScanConfig, h: CodeTables, s: ScanState, bits: seq<bool>, rest: seq<byte>, count: nat)
    requires ConfigOk(c) && CodeTablesOk(h) && StateOk(c, s) && count > 0 && RestartDue(c, s) && s.nextRestart < 8
    ensures DecodeMcus(c, h, s, bits, Marker(s.nextRestart) + rest, count)
         == DecodeOne(c, h, AfterRestart(c, s), BytesToBits(Unstuff(rest).0), Unstuff(rest).1, count)
  {
    hide DecodeOne, ConfigOk, CodeTablesOk, Unstuff, BytesToBits;
    assert (Marker(s.nextRestart) + rest)[2..] == rest;
  }

  /** One MCU without its marker, then the others. */
  lemma {:induction false} FirstMcuDecodes(c: ScanConfig, t: Tables, h: CodeTables, s: ScanState, mcus: seq<Mcu>,
                                           k: nat)
    requires ConfigOk(c) && TablesOk(t) && CodeTablesOk(h) && TablesMatch(c, t, h)
    requires StateOk(c, s) && McusOk(c, mcus) && mcus != [] && McuOk(c, mcus[0]) && McusOk(c, mcus[1..])
    requires var tr := BlocksTrace(c, AfterRestart(c, s).lastDc, mcus[0], 0);
      TraceWritable(t, Then(tr, ScanTrace(c, NextState(c, s, mcus[0]), mcus[1..])))
    ensures var tr := BlocksTrace(c, AfterRestart(c, s).lastDc, mcus[0], 0);
      var ops := Then(tr, ScanTrace(c, NextState(c, s, mcus[0]), mcus[1..])).ops;
      && Writable(t, ops)
      && DecodeOne(c, h, AfterRestart(c, s), SegmentBits(t, ops) + Ones(k), FromMarker(t, ops), |mcus|) == Some(mcus)
    decreases |mcus|, 0
  {
    hide *;
    var mcu, mcus', s0, s1 := mcus[0], mcus[1..], AfterRestart(c, s), NextState(c, s, mcus[0]);
    var tr, rest := BlocksTrace(c, s0.lastDc, mcu, 0), ScanTrace(c, s1, mcus');
    ThenWritable(t, tr, rest);
    WritableIs(t, tr);
    WritableIs(t, Then(tr, rest));
    ThenIs(tr.ops, rest);
    assert tr == Trace(tr.ops, false);
    McuTraceIs(c, s, mcu);
    BlocksCodable(c, t, s0.lastDc, mcu, 0);
    SegmentConcat(t, tr.ops, rest.ops);
    var after := SegmentBits(t, rest.ops) + Ones(k);
    assert BitsOf(t, tr.ops) + SegmentBits(t, rest.ops) + Ones(k) == BitsOf(t, tr.ops) + after;
    McuLength(c, mcu);
    BlocksDecode(c, t, h, s0.lastDc, mcu, 0, after);
    assert mcu[0..] == mcu;
    McusDecode(c, t, h, s1, mcus', k);
    DecodeOneStep(c, h, s0, BitsOf(t, tr.ops) + after, FromMarker(t, rest.ops), |mcus|, mcu, s1.lastDc, after);
    assert [mcu] + mcus' == mcus;
  }

  lemma McuLength(c: ScanConfig, mcu: Mcu)
    requires McuOk(c, mcu)
    ensures |mcu| == |c.membership|
  {}

  lemma DecodeOneStep(c: ScanConfig, h: CodeTables, s: ScanState, bits: seq<bool>, tail: seq<byte>, count: nat,
                      mcu: Mcu, lastDc: seq<int>, rest: seq<bool>)
    requires ConfigOk(c) && CodeTablesOk(h) && StateOk(c, s) && count > 0 && !RestartDue(c, s) && |lastDc| == c.comps
    requires DecodeBlocks(c, h, s.lastDc, bits, 0) == Some((mcu, lastDc, rest))
    ensures var toGo := if c.restartInterval > 0 then s.restartsToGo - 1 else s.restartsToGo;
      var s' := ScanState(lastDc, toGo, s.nextRestart);
      var r := DecodeMcus(c, h, s', rest, tail, count - 1);
      DecodeOne(c, h, s, bits, tail, count) == if r.None? then None else Some([mcu] + r.value)
  {
    hide DecodeBlocks, DecodeMcus, ConfigOk, CodeTablesOk;
  }

  /** Round trip: whenever a whole scan can be written, decoding what is written recovers every coefficient of every
      MCU. */
  lemma ScanRoundTrip(c: ScanConfig, t: Tables, h: CodeTables, mcus: seq<Mcu>)
    requires ConfigOk(c) && TablesOk(t) && CodeTablesOk(h) && TablesMatch(c, t, h) && McusOk(c, mcus)
    requires TraceWritable(t, ScanTrace(c, StartState(c), mcus))
    ensures OpsOk(ScanTrace(c, StartState(c), mcus).ops)
    ensures DecodeScan(c, h, Output(t, [], ScanTrace(c, StartState(c), mcus).ops), |mcus|) == Some(mcus)
  {
    hide Output, ScanTrace, TraceWritable, DecodeMcus, Unstuff, BytesToBits, SegmentBits, FromMarker, Writable, OpsOk,
      TablesMatch, Ones;
    var tr := ScanTrace(c, StartState(c), mcus);
    WritableIs(t, tr);
    var k := Stream(t, [], tr.ops);
    assert [] + SegmentBits(t, tr.ops) == SegmentBits(t, tr.ops);
    McusDecode(c, t, h, StartState(c), mcus, k);
  }
}
