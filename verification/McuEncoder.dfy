/** The pieces of an MCU: the restart marker before it and its blocks (jchuff.c, emit_restart and the block loop). */
module McuEncoder {
  import opened Bits
  import opened Symbols
  import opened Emissions
  import opened BitPacker
  import opened BlockEncoder
  import opened Scans

  const JPEG_RST0: nat := 0xD0

  /** Flushes the bit buffer, writes the marker and forgets the DC predictions. */
  method EmitRestart(s: WorkingState, num: nat, comps: nat,
                     ghost t: Tables, ghost e: Emission, ghost out0: seq<byte>, ghost free0: nat)
    returns (r: Outcome)
    requires TablesOk(t) && num < 8 && At(s, e, out0, free0)
    modifies s`next, s`free, s`putBuffer, s`putBits, s`lastDcVal, s.dest, s.dest.buffer
    ensures r == Ending(Step(t, e, Restart(num)), false, s.dest.suspending, free0)
    ensures r == Done ==> At(s, Step(t, e, Restart(num)), out0, free0) && s.lastDcVal == NoPrediction(comps)
    ensures r == Done ==> |s.lastDcVal| == comps && forall ci :: 0 <= ci < comps ==> s.lastDcVal[ci] == 0
    ensures s.dest.suspending ==> unchanged(s.dest) && s.dest.buffer[..s.dest.next] == old(s.dest.buffer[..s.dest.next])
  {
    hide ToBits, FullBytes, Leftover, Stuff, Held, Holds, Ones;
    r := s.FlushBits();
    if r != Done {
      return;
    }
    var ok := s.EmitByte(0xFF);
    if !ok {
      return Suspended;
    }
    ok := s.EmitByte(JPEG_RST0 + num);
    if !ok {
      return Suspended;
    }
    s.lastDcVal := NoPrediction(comps);
    assert out0 + (e.bytes + Flush(e.pending) + Marker(num))
      == out0 + e.bytes + Flush(e.pending) + [0xFF] + [0xD0 + num];
  }

  /** A marker in front of the blocks. */
  lemma RestartFirst(t: Tables, e: Emission, num: nat, blocks: Trace, suspending: bool, free0: nat)
    requires TablesOk(t) && num < 8 && OpsOk(blocks.ops)
    ensures var tr := Then(Trace([Restart(num)], false), blocks);
      var e1 := Step(t, e, Restart(num));
      && OpsOk(tr.ops)
      && Run(t, e, tr.ops) == Run(t, e1, blocks.ops)
      && (Ending(e1, false, suspending, free0) != Done ==>
           Ending(e1, false, suspending, free0) == Ending(Run(t, e, tr.ops), tr.bad, suspending, free0))
  {
    hide Run, Step, OpsOk, Ending;
    OpsOkNil();
    RunNil(t, e);
    RunSnoc(t, e, [], Restart(num));
    assert [] + [Restart(num)] == [Restart(num)];
    OpsOkConcat([Restart(num)], blocks.ops);
    RunConcat(t, e, [Restart(num)], blocks.ops);
    StopsEarly(t, e, [Restart(num)], blocks.ops, blocks.bad, suspending, free0);
  }

  /** What one block's ending means for the whole MCU. */
  lemma BlockWithin(t: Tables, e0: Emission, tr: Trace, done: seq<Op>, bt: Trace, rest: Trace, suspending: bool,
                    free0: nat)
    requires TablesOk(t) && OpsOk(done) && OpsOk(bt.ops) && OpsOk(tr.ops) && OpsOk(rest.ops)
    requires Remaining(tr, done, Then(bt, rest))
    ensures Run(t, Run(t, e0, done), bt.ops) == Run(t, e0, done + bt.ops) && OpsOk(done + bt.ops)
    ensures !bt.bad ==> Remaining(tr, done + bt.ops, rest)
    ensures var r := Ending(Run(t, Run(t, e0, done), bt.ops), bt.bad, suspending, free0);
      r != Done ==> r == Ending(Run(t, e0, tr.ops), tr.bad, suspending, free0)
  {
    hide Run, Step, OpsOk;
    RunConcat(t, e0, done, bt.ops);
    if !bt.bad {
      RemainingNext(tr, done, bt.ops, rest);
      StopsEarly(t, e0, done + bt.ops, rest.ops, tr.bad, suspending, free0);
    }
  }

  /** The blocks of one MCU in order, each predicted from the previous block of its component. */
  method EncodeBlocks(s: WorkingState, mcu: Mcu, c: ScanConfig, t: Tables,
                      ghost e0: Emission, ghost out0: seq<byte>, ghost free0: nat)
    returns (r: Outcome)
    requires ConfigOk(c) && TablesOk(t) && McuOk(c, mcu) && |s.lastDcVal| == c.comps
    requires At(s, e0, out0, free0)
    modifies s`next, s`free, s`putBuffer, s`putBits, s`lastDcVal, s.dest, s.dest.buffer
    ensures OpsOk(BlocksTrace(c, old(s.lastDcVal), mcu, 0).ops)
    ensures var tr := BlocksTrace(c, old(s.lastDcVal), mcu, 0); var e := Run(t, e0, tr.ops);
      && r == Ending(e, tr.bad, s.dest.suspending, free0)
      && (r == Done ==> At(s, e, out0, free0))
    ensures r == Done ==> s.lastDcVal == LastDcAfter(c, old(s.lastDcVal), mcu, 0)
    ensures s.dest.suspending ==> unchanged(s.dest) && s.dest.buffer[..s.dest.next] == old(s.dest.buffer[..s.dest.next])
  {
    hide At, Run, OpsOk, BlocksTrace, LastDcAfter, Ending, BlockTrace, TablesOk;
    ghost var last0 := s.lastDcVal;
    ghost var tr := BlocksTrace(c, last0, mcu, 0);
    ghost var done: seq<Op> := [];
    BlocksOpsOk(c, last0, mcu, 0);
    StartBlocks(s, t, e0, tr, out0, free0);
    for b := 0 to |c.membership|
      invariant |s.lastDcVal| == c.comps && OpsOk(done)
      invariant Remaining(tr, done, BlocksTrace(c, s.lastDcVal, mcu, b))
      invariant LastDcAfter(c, s.lastDcVal, mcu, b) == LastDcAfter(c, last0, mcu, 0)
      invariant At(s, Run(t, e0, done), out0, free0)
      invariant s.dest.suspending ==>
        unchanged(s.dest) && s.dest.buffer[..s.dest.next] == old(s.dest.buffer[..s.dest.next])
    {
      var ci := c.membership[b];
      ghost var last := s.lastDcVal;
      BlocksStep(c, last, mcu, b);
      ghost var bt := BlockTrace(mcu[b], last[ci], c.dcTbl[ci], c.acTbl[ci]);
      BlockOpsOk(mcu[b], last[ci], c.dcTbl[ci], c.acTbl[ci]);
      BlocksOpsOk(c, last[ci := mcu[b][0]], mcu, b + 1);
      BlockWithin(t, e0, tr, done, bt, BlocksTrace(c, last[ci := mcu[b][0]], mcu, b + 1), s.dest.suspending, free0);
      TableSlots(t, c.dcTbl[ci], c.acTbl[ci]);
      r := EncodeOneBlock(s, mcu[b], s.lastDcVal[ci], t.dc[c.dcTbl[ci]], t.ac[c.acTbl[ci]],
                          t, c.dcTbl[ci], c.acTbl[ci], Run(t, e0, done), out0, free0);
      if r != Done {
        return;
      }
      DoneNotBad(Run(t, Run(t, e0, done), bt.ops), bt.bad, s.dest.suspending, free0);
      done := done + bt.ops;
      SetPrediction(s, ci, mcu[b][0], Run(t, e0, done), out0, free0);
    }
    BlocksEnd(c, s.lastDcVal, mcu);
    assert tr.ops == done + [] == done;
    NotFull(s, Run(t, e0, done), out0, free0);
    r := Done;
  }

  /** Updates last_dc_val[ci]. */
  method SetPrediction(s: WorkingState, ci: nat, dc: int, ghost e: Emission, ghost out0: seq<byte>, ghost free0: nat)
    requires ci < |s.lastDcVal| && At(s, e, out0, free0)
    modifies s`lastDcVal
    ensures s.lastDcVal == old(s.lastDcVal)[ci := dc] && At(s, e, out0, free0)
  {
    s.lastDcVal := s.lastDcVal[ci := dc];
  }

  lemma TableSlots(t: Tables, a: nat, b: nat)
    requires TablesOk(t) && a < 4 && b < 4
    ensures a < |t.dc| && b < |t.ac|
  {}

  lemma DoneNotBad(e: Emission, bad: bool, suspending: bool, free0: nat)
    requires Ending(e, bad, suspending, free0) == Done
    ensures !bad
  {}

  lemma StartBlocks(s: WorkingState, t: Tables, e0: Emission, tr: Trace, out0: seq<byte>, free0: nat)
    requires TablesOk(t) && OpsOk(tr.ops) && At(s, e0, out0, free0)
    ensures OpsOk([]) && Remaining(tr, [], tr) && Run(t, e0, []) == e0
    ensures s.dest.next <= s.dest.buffer.Length
  {
    assert [] + tr.ops == tr.ops;
  }

  /** Everything encode_mcu_huff writes for one MCU. */
  method WriteMcu(s: WorkingState, mcu: Mcu, c: ScanConfig, t: Tables, restartsToGo: nat, nextRestart: nat,
                  ghost e0: Emission, ghost out0: seq<byte>, ghost free0: nat)
    returns (r: Outcome)
    requires ConfigOk(c) && TablesOk(t) && McuOk(c, mcu) && |s.lastDcVal| == c.comps && nextRestart < 8
    requires At(s, e0, out0, free0)
    modifies s`next, s`free, s`putBuffer, s`putBits, s`lastDcVal, s.dest, s.dest.buffer
    ensures var st := ScanState(old(s.lastDcVal), restartsToGo, nextRestart);
      var tr := McuTrace(c, st, mcu);
      && OpsOk(tr.ops)
      && r == Ending(Run(t, e0, tr.ops), tr.bad, s.dest.suspending, free0)
      && (r == Done ==> At(s, Run(t, e0, tr.ops), out0, free0))
      && (r == Done ==> s.lastDcVal == LastDcAfter(c, Prediction(c, st), mcu, 0))
    ensures s.dest.suspending ==> unchanged(s.dest) && s.dest.buffer[..s.dest.next] == old(s.dest.buffer[..s.dest.next])
  {
    hide At, Run, Step, OpsOk, BlocksTrace, LastDcAfter, Ending, TablesOk;
    ghost var st := ScanState(s.lastDcVal, restartsToGo, nextRestart);
    ghost var blocks := BlocksTrace(c, Prediction(c, st), mcu, 0);
    ghost var e := e0;
    McuOpsOk(c, st, mcu);
    BlocksOpsOk(c, Prediction(c, st), mcu, 0);
    NotFull(s, e0, out0, free0);
    if c.restartInterval != 0 && restartsToGo == 0 {
      RestartFirst(t, e0, nextRestart, blocks, s.dest.suspending, free0);
      r := EmitRestart(s, nextRestart, c.comps, t, e0, out0, free0);
      if r != Done {
        return;
      }
      e := Step(t, e0, Restart(nextRestart));
    }
    r := EncodeBlocks(s, mcu, c, t, e, out0, free0);
  }
}
