/** Encoding one block of coefficients (jchuff.c, encode_one_block), proved to write exactly the block's trace. */
module BlockEncoder {
  import opened Bits
  import opened HuffmanTable
  import opened Symbols
  import opened Emissions
  import opened BitPacker

  /** The state has written e's bytes after out0 and holds e's pending bits; free0 bytes were free at the start. */
  ghost predicate At(s: WorkingState, e: Emission, out0: seq<byte>, free0: nat)
    reads s, s.dest, s.dest.buffer
  {
    && s.Valid() && !e.missing
    && s.Out() == out0 + e.bytes
    && s.Pending() == e.pending
    && (s.dest.suspending ==> s.free == free0 - |e.bytes|)
  }

  /** How writing ends: it suspends as soon as the free bytes are used up, which comes before any error further on. */
  ghost function Ending(e: Emission, bad: bool, suspending: bool, free0: nat): Outcome {
    if suspending && |e.bytes| >= free0 then Suspended
    else if e.missing then Failed(MissingCode)
    else if bad then Failed(BadDctCoef)
    else Done
  }

  /** emit_bits for one operation. */
  method EmitOp(s: WorkingState, code: int, size: nat,
                ghost t: Tables, ghost op: Op, ghost e: Emission, ghost out0: seq<byte>, ghost free0: nat)
    returns (r: Outcome)
    requires TablesOk(t) && OpOk(op) && !op.Restart? && size <= 16
    requires size > 0 <==> HasCode(t, op)
    requires size > 0 ==> ToBits(code, size) == OpBits(t, op)
    requires At(s, e, out0, free0)
    modifies s`next, s`free, s`putBuffer, s`putBits, s.dest, s.dest.buffer
    ensures r == Ending(Step(t, e, op), false, s.dest.suspending, free0)
    ensures r == Done ==> At(s, Step(t, e, op), out0, free0)
    ensures s.dest.suspending ==> unchanged(s.dest) && s.dest.buffer[..s.dest.next] == old(s.dest.buffer[..s.dest.next])
  {
    hide ToBits, FullBytes, Leftover, Stuff, Held, Holds, HasCode, OpBits, Slot;
    r := s.EmitBits(code, size);
    if size > 0 {
      assert out0 + (e.bytes + Stuff(FullBytes(e.pending + OpBits(t, op))))
          == out0 + e.bytes + Stuff(FullBytes(e.pending + OpBits(t, op)));
    }
  }

  /** The loop that counts the bits of a magnitude. */
  method MagnitudeBits(v: nat) returns (nbits: nat)
    ensures nbits == BitLen(v)
  {
    var temp: nat := v;
    nbits := 0;
    while temp != 0
      invariant nbits + BitLen(temp) == BitLen(v)
    {
      nbits := nbits + 1;
      temp := temp / 2;
    }
  }

  /** The same for a magnitude known to be nonzero. */
  method NonzeroMagnitudeBits(v: nat) returns (nbits: nat)
    requires v > 0
    ensures nbits == BitLen(v)
  {
    nbits := 1;
    var temp: nat := v / 2;
    while temp != 0
      invariant nbits + BitLen(temp) == BitLen(v)
    {
      nbits := nbits + 1;
      temp := temp / 2;
    }
  }

  /** Symbol sym of a table. */
  method EmitSymbol(s: WorkingState, d: DerivedTable, sym: nat,
                    ghost t: Tables, ghost op: Op, ghost e: Emission, ghost out0: seq<byte>, ghost free0: nat)
    returns (r: Outcome)
    requires TablesOk(t) && OpOk(op) && op.Huff? && op.sym == sym && Slot(t, op.isDC, op.tbl) == d
    requires At(s, e, out0, free0)
    modifies s`next, s`free, s`putBuffer, s`putBits, s.dest, s.dest.buffer
    ensures r == Ending(Step(t, e, op), false, s.dest.suspending, free0)
    ensures r == Done ==> At(s, Step(t, e, op), out0, free0)
    ensures s.dest.suspending ==> unchanged(s.dest) && s.dest.buffer[..s.dest.next] == old(s.dest.buffer[..s.dest.next])
  {
    hide ToBits, At, Step, Ending, Slot;
    r := EmitOp(s, d.ehufco[sym], d.ehufsi[sym], t, op, e, out0, free0);
  }

  /** Additional bits of a nonzero value. */
  method EmitExtra(s: WorkingState, value: int, nbits: nat,
                   ghost t: Tables, ghost op: Op, ghost e: Emission, ghost out0: seq<byte>, ghost free0: nat)
    returns (r: Outcome)
    requires TablesOk(t) && OpOk(op) && op == Raw(value, nbits)
    requires At(s, e, out0, free0)
    modifies s`next, s`free, s`putBuffer, s`putBits, s.dest, s.dest.buffer
    ensures r == Ending(Step(t, e, op), false, s.dest.suspending, free0)
    ensures r == Done ==> At(s, Step(t, e, op), out0, free0)
    ensures s.dest.suspending ==> unchanged(s.dest) && s.dest.buffer[..s.dest.next] == old(s.dest.buffer[..s.dest.next])
  {
    hide ToBits, At, Step, Ending, Slot;
    r := EmitOp(s, value, nbits, t, op, e, out0, free0);
  }

  /** An early stop decides how the whole trace ends. */
  lemma StopsEarly(t: Tables, e: Emission, first: seq<Op>, rest: seq<Op>, bad: bool, suspending: bool, free0: nat)
    requires TablesOk(t) && OpsOk(first + rest)
    ensures OpsOk(first)
    ensures var e1 := Run(t, e, first);
      Ending(e1, false, suspending, free0) != Done ==>
        Ending(e1, false, suspending, free0) == Ending(Run(t, e, first + rest), bad, suspending, free0)
  {
    hide Run, OpsOk;
    OpsOkConcat(first, rest);
    RunConcat(t, e, first, rest);
    RunExtends(t, Run(t, e, first), rest);
  }

  /** Writes the DC difference (section F.1.2.1). */
  method EncodeDc(s: WorkingState, diff: int, dctbl: DerivedTable,
                  ghost t: Tables, ghost dcNo: nat, ghost e0: Emission, ghost out0: seq<byte>, ghost free0: nat)
    returns (r: Outcome)
    requires TablesOk(t) && dcNo < 4 && t.dc[dcNo] == dctbl
    requires At(s, e0, out0, free0)
    modifies s`next, s`free, s`putBuffer, s`putBits, s.dest, s.dest.buffer
    ensures OpsOk(DcTrace(diff, dcNo).ops)
    ensures var tr := DcTrace(diff, dcNo); var e := Run(t, e0, tr.ops);
      && r == Ending(e, tr.bad, s.dest.suspending, free0)
      && (r == Done ==> At(s, e, out0, free0))
    ensures s.dest.suspending ==> unchanged(s.dest) && s.dest.buffer[..s.dest.next] == old(s.dest.buffer[..s.dest.next])
  {
    hide ToBits, At, Step, Run, BitLen;
    var temp, temp2 := diff, diff;
    if temp < 0 {
      temp := -temp;
      temp2 := temp2 - 1;
    }
    var nbits := MagnitudeBits(temp);
    ghost var tr := DcTrace(diff, dcNo);
    RunNil(t, e0);
    if nbits > MAX_COEF_BITS + 1 {
      NotFull(s, e0, out0, free0);
      return Failed(BadDctCoef);
    }
    ghost var op := Huff(true, dcNo, nbits);
    assert OpOk(op) && [op] == [] + [op];
    RunSnoc(t, e0, [], op);
    r := EmitSymbol(s, dctbl, nbits, t, op, e0, out0, free0);
    ghost var rest := if nbits > 0 then [Extra(diff)] else [];
    assert OpsOk(tr.ops) && tr.ops == [op] + rest && !tr.bad;
    assert nbits == 0 ==> tr.ops == [op];
    StopsEarly(t, e0, [op], rest, false, s.dest.suspending, free0);
    if r != Done {
      return;
    }
    if nbits > 0 {
      RunSnoc(t, e0, [op], Extra(diff));
      r := EmitExtra(s, temp2, nbits, t, Extra(diff), Run(t, e0, [op]), out0, free0);
    }
  }

  lemma NotFull(s: WorkingState, e: Emission, out0: seq<byte>, free0: nat)
    requires At(s, e, out0, free0)
    ensures Ending(e, false, s.dest.suspending, free0) == Done
    ensures Ending(e, true, s.dest.suspending, free0) == Failed(BadDctCoef)
    ensures s.dest.next <= s.dest.buffer.Length
  {}

  /** The trace tr has been written up to done; rest is still to come. */
  ghost predicate Remaining(tr: Trace, done: seq<Op>, rest: Trace) {
    OpsOk(done) && OpsOk(rest.ops) && tr.ops == done + rest.ops && tr.bad == rest.bad
  }

  lemma RemainingNext(tr: Trace, done: seq<Op>, ops: seq<Op>, rest: Trace)
    requires Remaining(tr, done, Then(Trace(ops, false), rest))
    ensures Remaining(tr, done + ops, rest)
  {
    OpsOkConcat(ops, rest.ops);
    OpsOkConcat(done, ops);
    assert done + (ops + rest.ops) == (done + ops) + rest.ops;
  }

  /** Writes the AC coefficients (section F.1.2.2). */
  method EncodeAc(s: WorkingState, block: Block, actbl: DerivedTable,
                  ghost t: Tables, ghost acNo: nat, ghost e0: Emission, ghost out0: seq<byte>, ghost free0: nat)
    returns (r: Outcome)
    requires TablesOk(t) && acNo < 4 && t.ac[acNo] == actbl
    requires At(s, e0, out0, free0)
    modifies s`next, s`free, s`putBuffer, s`putBits, s.dest, s.dest.buffer
    ensures OpsOk(AcTrace(block, acNo, 1, 0).ops)
    ensures var tr := AcTrace(block, acNo, 1, 0); var e := Run(t, e0, tr.ops);
      && r == Ending(e, tr.bad, s.dest.suspending, free0)
      && (r == Done ==> At(s, e, out0, free0))
    ensures s.dest.suspending ==> unchanged(s.dest) && s.dest.buffer[..s.dest.next] == old(s.dest.buffer[..s.dest.next])
  {
    hide *;
    ghost var tr := AcTrace(block, acNo, 1, 0);
    ghost var done: seq<Op> := StartTrace(s, block, acNo, t, e0, out0, free0);
    var rz, k := 0, 1;
    while k < 64
      invariant 1 <= k <= 64 && rz < k
      invariant Remaining(tr, done, AcTrace(block, acNo, k, rz)) && OpsOk(done) && OpsOk(tr.ops)
      invariant At(s, Run(t, e0, done), out0, free0)
      invariant s.dest.suspending ==>
        unchanged(s.dest) && s.dest.buffer[..s.dest.next] == old(s.dest.buffer[..s.dest.next])
    {
      AcStep(block, acNo, k, rz);
      var temp := Zigzag(block, k);
      if temp == 0 {
        rz := rz + 1;
      } else {
        r, rz, done := EncodeZeroRuns(s, block, actbl, k, rz, t, acNo, tr, done, e0, out0, free0);
        if r != Done {
          return;
        }
        r, done := EncodeNonzero(s, block, actbl, k, rz, t, acNo, tr, done, e0, out0, free0);
        if r != Done {
          return;
        }
        rz := 0;
      }
      k := k + 1;
    }
    r := EncodeEnd(s, block, actbl, rz, t, acNo, tr, done, e0, out0, free0);
  }

  lemma StartTrace(s: WorkingState, block: Block, acNo: nat, t: Tables, e0: Emission, out0: seq<byte>, free0: nat)
    returns (done: seq<Op>)
    requires TablesOk(t) && acNo < 4 && At(s, e0, out0, free0)
    ensures done == [] && Remaining(AcTrace(block, acNo, 1, 0), done, AcTrace(block, acNo, 1, 0)) && OpsOk(done)
      && Run(t, e0, done) == e0
    ensures OpsOk(AcTrace(block, acNo, 1, 0).ops)
    ensures s.dest.next <= s.dest.buffer.Length
  {
    hide AcTrace, Run;
    RunNil(t, e0);
    AcOpsOk(block, acNo, 1, 0);
    var tr := AcTrace(block, acNo, 1, 0);
    done := [];
    assert tr.ops == done + tr.ops;
  }

  /** An end-of-block symbol if the block ends in zeros. */
  method EncodeEnd(s: WorkingState, block: Block, actbl: DerivedTable, rz: nat, ghost t: Tables, ghost acNo: nat,
                   ghost tr: Trace, ghost done: seq<Op>, ghost e0: Emission, ghost out0: seq<byte>, ghost free0: nat)
    returns (r: Outcome)
    requires TablesOk(t) && acNo < 4 && t.ac[acNo] == actbl
    requires Remaining(tr, done, AcTrace(block, acNo, 64, rz)) && OpsOk(done) && OpsOk(tr.ops)
    requires At(s, Run(t, e0, done), out0, free0)
    modifies s`next, s`free, s`putBuffer, s`putBits, s.dest, s.dest.buffer
    ensures var e := Run(t, e0, tr.ops);
      && r == Ending(e, tr.bad, s.dest.suspending, free0)
      && (r == Done ==> At(s, e, out0, free0))
    ensures s.dest.suspending ==> unchanged(s.dest) && s.dest.buffer[..s.dest.next] == old(s.dest.buffer[..s.dest.next])
  {
    hide ToBits, At, Step, Run, BitLen, AcTrace, Zigzag, OpsOk, Ending;
    AcStep(block, acNo, 64, rz);
    if rz > 0 {
      ghost var op := Huff(false, acNo, EOB);
      RunSnoc(t, e0, done, op);
      r := EmitSymbol(s, actbl, 0, t, op, Run(t, e0, done), out0, free0);
      assert tr.ops == done + [op] && !tr.bad;
    } else {
      assert tr.ops == done && !tr.bad;
      NotFull(s, Run(t, e0, done), out0, free0);
      r := Done;
    }
  }

  /** One 0xF0 symbol for every sixteen zeros before a nonzero coefficient. */
  method EncodeZeroRuns(s: WorkingState, block: Block, actbl: DerivedTable, k: nat, r0: nat, ghost t: Tables,
                        ghost acNo: nat, ghost tr: Trace, ghost done0: seq<Op>, ghost e0: Emission,
                        ghost out0: seq<byte>, ghost free0: nat)
    returns (r: Outcome, rz: nat, ghost done: seq<Op>)
    requires TablesOk(t) && acNo < 4 && t.ac[acNo] == actbl && 1 <= k < 64 && r0 < k && Zigzag(block, k) != 0
    requires Remaining(tr, done0, AcTrace(block, acNo, k, r0)) && OpsOk(done0) && OpsOk(tr.ops)
    requires At(s, Run(t, e0, done0), out0, free0)
    modifies s`next, s`free, s`putBuffer, s`putBits, s.dest, s.dest.buffer
    ensures r == Done ==> rz <= 15 && rz < k && OpsOk(done) && Remaining(tr, done, AcTrace(block, acNo, k, rz))
    ensures r == Done ==> At(s, Run(t, e0, done), out0, free0)
    ensures r != Done ==> r == Ending(Run(t, e0, tr.ops), tr.bad, s.dest.suspending, free0)
    ensures s.dest.suspending ==> unchanged(s.dest) && s.dest.buffer[..s.dest.next] == old(s.dest.buffer[..s.dest.next])
  {
    hide ToBits, At, Step, Run, BitLen, AcTrace, Zigzag, OpsOk, Ending;
    rz, done, r := r0, done0, Done;
    NotFull(s, Run(t, e0, done), out0, free0);
    while rz > 15
      invariant r == Done && rz < k && OpsOk(done) && Remaining(tr, done, AcTrace(block, acNo, k, rz))
      invariant At(s, Run(t, e0, done), out0, free0)
      invariant s.dest.suspending ==>
        unchanged(s.dest) && s.dest.buffer[..s.dest.next] == old(s.dest.buffer[..s.dest.next])
    {
      AcStep(block, acNo, k, rz);
      ghost var op, rest := Huff(false, acNo, ZRL), AcTrace(block, acNo, k, rz - 16);
      RunSnoc(t, e0, done, op);
      RemainingNext(tr, done, [op], rest);
      StopsEarly(t, e0, done + [op], rest.ops, tr.bad, s.dest.suspending, free0);
      r := EmitSymbol(s, actbl, 0xF0, t, op, Run(t, e0, done), out0, free0);
      if r != Done {
        return;
      }
      done := done + [op];
      rz := rz - 16;
    }
  }

  /** The run/size symbol and the additional bits of one nonzero coefficient. */
  method EncodeNonzero(s: WorkingState, block: Block, actbl: DerivedTable, k: nat, rz: nat, ghost t: Tables,
                       ghost acNo: nat, ghost tr: Trace, ghost done0: seq<Op>, ghost e0: Emission,
                       ghost out0: seq<byte>, ghost free0: nat)
    returns (r: Outcome, ghost done: seq<Op>)
    requires TablesOk(t) && acNo < 4 && t.ac[acNo] == actbl && 1 <= k < 64 && rz <= 15 && Zigzag(block, k) != 0
    requires Remaining(tr, done0, AcTrace(block, acNo, k, rz)) && OpsOk(done0) && OpsOk(tr.ops)
    requires At(s, Run(t, e0, done0), out0, free0)
    modifies s`next, s`free, s`putBuffer, s`putBits, s.dest, s.dest.buffer
    ensures r == Done ==>
      OpsOk(done) && Remaining(tr, done, AcTrace(block, acNo, k + 1, 0)) && At(s, Run(t, e0, done), out0, free0)
    ensures r != Done ==> r == Ending(Run(t, e0, tr.ops), tr.bad, s.dest.suspending, free0)
    ensures s.dest.suspending ==> unchanged(s.dest) && s.dest.buffer[..s.dest.next] == old(s.dest.buffer[..s.dest.next])
  {
    hide ToBits, At, Step, Run, BitLen, AcTrace, Zigzag, OpsOk, Ending, Remaining;
    AcStep(block, acNo, k, rz);
    done := done0;
    ghost var e := Run(t, e0, done);
    var temp := Zigzag(block, k);
    var temp2 := temp;
    if temp < 0 {
      temp := -temp;
      temp2 := temp2 - 1;
    }
    var nbits := NonzeroMagnitudeBits(temp);
    if nbits > MAX_COEF_BITS {
      NothingLeft(tr, done);
      NotFull(s, e, out0, free0);
      return Failed(BadDctCoef), done;
    }
    ghost var op1, op2, rest :=
      Huff(false, acNo, 16 * rz + nbits), Extra(Zigzag(block, k)), AcTrace(block, acNo, k + 1, 0);
    TwoOps(t, e0, tr, done, op1, op2, rest, s.dest.suspending, free0);
    r := EmitSymbol(s, actbl, 16 * rz + nbits, t, op1, e, out0, free0);
    if r == Done {
      r := EmitExtra(s, temp2, nbits, t, op2, Step(t, e, op1), out0, free0);
    }
    done := done + [op1, op2];
  }

  lemma NothingLeft(tr: Trace, done: seq<Op>)
    requires Remaining(tr, done, Trace([], true))
    ensures tr == Trace(done, true)
  {
    assert done + [] == done;
  }

  lemma TwoOps(t: Tables, e0: Emission, tr: Trace, done: seq<Op>, op1: Op, op2: Op, rest: Trace, suspending: bool,
               free0: nat)
    requires TablesOk(t) && OpsOk(done) && OpOk(op1) && OpOk(op2) && OpsOk(tr.ops)
    requires Remaining(tr, done, Then(Trace([op1, op2], false), rest))
    ensures Remaining(tr, done + [op1, op2], rest) && OpsOk(done + [op1, op2])
    ensures var e := Run(t, e0, done); var e1 := Step(t, e, op1); var e2 := Step(t, e1, op2);
      && e2 == Run(t, e0, done + [op1, op2])
      && (Ending(e1, false, suspending, free0) != Done ==>
           Ending(e1, false, suspending, free0) == Ending(Run(t, e0, tr.ops), tr.bad, suspending, free0))
      && (Ending(e2, false, suspending, free0) != Done ==>
           Ending(e2, false, suspending, free0) == Ending(Run(t, e0, tr.ops), tr.bad, suspending, free0))
  {
    hide Step, Run, OpsOk, Ending;
    RunSnoc(t, e0, done, op1);
    RunSnoc(t, e0, done + [op1], op2);
    assert done + [op1, op2] == done + [op1] + [op2];
    RemainingNext(tr, done, [op1, op2], rest);
    assert tr.ops == done + [op1] + ([op2] + rest.ops);
    StopsEarly(t, e0, done + [op1], [op2] + rest.ops, tr.bad, suspending, free0);
    StopsEarly(t, e0, done + [op1, op2], rest.ops, tr.bad, suspending, free0);
  }

  /** Encodes one block: the outcome and the bytes are those of the block's trace. */
  method EncodeOneBlock(s: WorkingState, block: Block, lastDcVal: int, dctbl: DerivedTable, actbl: DerivedTable,
                        ghost t: Tables, ghost dcNo: nat, ghost acNo: nat,
                        ghost e0: Emission, ghost out0: seq<byte>, ghost free0: nat)
    returns (r: Outcome)
    requires TablesOk(t) && dcNo < 4 && acNo < 4 && t.dc[dcNo] == dctbl && t.ac[acNo] == actbl
    requires At(s, e0, out0, free0)
    modifies s`next, s`free, s`putBuffer, s`putBits, s.dest, s.dest.buffer
    ensures OpsOk(BlockTrace(block, lastDcVal, dcNo, acNo).ops)
    ensures var tr := BlockTrace(block, lastDcVal, dcNo, acNo); var e := Run(t, e0, tr.ops);
      && r == Ending(e, tr.bad, s.dest.suspending, free0)
      && (r == Done ==> At(s, e, out0, free0))
    ensures s.dest.suspending ==> unchanged(s.dest) && s.dest.buffer[..s.dest.next] == old(s.dest.buffer[..s.dest.next])
  {
    hide ToBits, At, Step, Run, OpsOk, DcTrace, AcTrace;
    BlockOpsOk(block, lastDcVal, dcNo, acNo);
    ghost var dc, ac := DcTrace(block[0] - lastDcVal, dcNo), AcTrace(block, acNo, 1, 0);
    AcOpsOk(block, acNo, 1, 0);
    r := EncodeDc(s, block[0] - lastDcVal, dctbl, t, dcNo, e0, out0, free0);
    if !dc.bad {
      OpsOkConcat(dc.ops, ac.ops);
      RunConcat(t, e0, dc.ops, ac.ops);
      StopsEarly(t, e0, dc.ops, ac.ops, ac.bad, s.dest.suspending, free0);
    }
    if r != Done {
      return;
    }
    r := EncodeAc(s, block, actbl, t, acNo, Run(t, e0, dc.ops), out0, free0);
  }
}
