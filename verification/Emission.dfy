/** The byte stream the encoder owes for a sequence of symbols: the reference against which the packer,
    suspension and the decoder are proved. */
module Emissions {
  import opened Bits
  import opened HuffmanTable
  import opened Symbols

  /** Derived tables by slot. */
  datatype Tables = Tables(dc: seq<DerivedTable>, ac: seq<DerivedTable>)

  ghost predicate TableOk(d: DerivedTable) {
    |d.ehufco| == 256 && |d.ehufsi| == 256 && forall s :: 0 <= s < 256 ==> d.ehufsi[s] <= 16
  }

  ghost predicate TablesOk(t: Tables) {
    && |t.dc| == 4 && |t.ac| == 4
    && (forall i :: 0 <= i < 4 ==> TableOk(t.dc[i]))
    && (forall i :: 0 <= i < 4 ==> TableOk(t.ac[i]))
  }

  ghost function Slot(t: Tables, isDC: bool, tbl: nat): (d: DerivedTable)
    requires TablesOk(t) && tbl < 4
    ensures TableOk(d)
  {
    if isDC then t.dc[tbl] else t.ac[tbl]
  }

  /** Bytes written since a starting point, bits not yet written, and whether a symbol without a code stopped it. */
  datatype Emission = Emission(bytes: seq<byte>, pending: seq<bool>, missing: bool)

  ghost function AddBits(e: Emission, b: seq<bool>): Emission {
    Emission(e.bytes + Stuff(FullBytes(e.pending + b)), Leftover(e.pending + b), e.missing)
  }

  ghost predicate HasCode(t: Tables, op: Op)
    requires TablesOk(t) && OpOk(op)
  {
    op.Huff? ==> Slot(t, op.isDC, op.tbl).ehufsi[op.sym] > 0
  }

  /** The bits an operation puts into the stream. */
  ghost function OpBits(t: Tables, op: Op): seq<bool>
    requires TablesOk(t) && OpOk(op) && !op.Restart?
  {
    match op
    case Huff(isDC, tbl, sym) => ToBits(Slot(t, isDC, tbl).ehufco[sym], Slot(t, isDC, tbl).ehufsi[sym])
    case Raw(value, size) => ToBits(value, size)
  }

  /** The marker RSTn. */
  function Marker(num: nat): (m: seq<byte>)
    requires num < 8
  {
    [0xFF, 0xD0 + num]
  }

  /** Ones complete the last byte. */
  ghost function Flush(pending: seq<bool>): seq<byte> {
    Stuff(FullBytes(pending + Ones(7)))
  }

  ghost function Step(t: Tables, e: Emission, op: Op): Emission
    requires TablesOk(t) && OpOk(op)
  {
    if e.missing then e
    else if !HasCode(t, op) then e.(missing := true)
    else if op.Restart? then Emission(e.bytes + Flush(e.pending) + Marker(op.num), [], false)
    else AddBits(e, OpBits(t, op))
  }

  ghost function Run(t: Tables, e: Emission, ops: seq<Op>): Emission
    requires TablesOk(t) && OpsOk(ops)
  {
    if ops == [] then e else Step(t, Run(t, e, ops[..|ops| - 1]), ops[|ops| - 1])
  }

  lemma RunNil(t: Tables, e: Emission)
    requires TablesOk(t)
    ensures OpsOk([]) && Run(t, e, []) == e
  {}

  lemma RunSnoc(t: Tables, e: Emission, ops: seq<Op>, op: Op)
    requires TablesOk(t) && OpsOk(ops) && OpOk(op)
    ensures OpsOk(ops + [op]) && Run(t, e, ops + [op]) == Step(t, Run(t, e, ops), op)
  {
    assert (ops + [op])[..|ops|] == ops;
  }

  lemma {:induction false} RunConcat(t: Tables, e: Emission, a: seq<Op>, b: seq<Op>)
    requires TablesOk(t) && OpsOk(a) && OpsOk(b)
    ensures OpsOk(a + b) && Run(t, e, a + b) == Run(t, Run(t, e, a), b)
  {
    hide Run, Step;
    OpsOkConcat(a, b);
    if b == [] {
      assert a + b == a;
      RunNil(t, Run(t, e, a));
    } else {
      var b', op := b[..|b| - 1], b[|b| - 1];
      assert b == b' + [op] && a + b == (a + b') + [op];
      RunConcat(t, e, a, b');
      RunSnoc(t, e, a + b', op);
      RunSnoc(t, Run(t, e, a), b', op);
    }
  }

  /** What has been written stays written, and nothing follows a missing code. */
  lemma {:induction false} RunExtends(t: Tables, e: Emission, ops: seq<Op>)
    requires TablesOk(t) && OpsOk(ops)
    ensures e.bytes <= Run(t, e, ops).bytes
    ensures e.missing ==> Run(t, e, ops) == e
    ensures |e.pending| < 8 ==> |Run(t, e, ops).pending| < 8
  {
    hide Run, Stuff, FullBytes, ToBits, Marker, Ones;
    if ops == [] {
      RunNil(t, e);
    } else {
      var ops', op := ops[..|ops| - 1], ops[|ops| - 1];
      assert ops == ops' + [op];
      RunExtends(t, e, ops');
      RunSnoc(t, e, ops', op);
    }
  }

  /** Starting elsewhere in the byte stream changes nothing but the position. */
  lemma {:induction false} RunShift(t: Tables, e: Emission, ops: seq<Op>, before: seq<byte>)
    requires TablesOk(t) && OpsOk(ops)
    ensures var e' := Run(t, e, ops); Run(t, e.(bytes := before + e.bytes), ops) == e'.(bytes := before + e'.bytes)
  {
    hide Run, Stuff, FullBytes, ToBits, Marker, Ones, Leftover;
    var shifted := e.(bytes := before + e.bytes);
    if ops == [] {
      RunNil(t, e);
      RunNil(t, shifted);
    } else {
      var ops', op := ops[..|ops| - 1], ops[|ops| - 1];
      assert ops == ops' + [op];
      RunShift(t, e, ops', before);
      RunSnoc(t, e, ops', op);
      RunSnoc(t, shifted, ops', op);
      StepShift(t, Run(t, e, ops'), op, before);
    }
  }

  lemma StepShift(t: Tables, e: Emission, op: Op, before: seq<byte>)
    requires TablesOk(t) && OpOk(op)
    ensures var e' := Step(t, e, op); Step(t, e.(bytes := before + e.bytes), op) == e'.(bytes := before + e'.bytes)
  {
    hide Stuff, FullBytes, ToBits, Marker, Ones, Leftover, Flush;
    if op.Restart? {
      var f, m := Flush(e.pending), Marker(op.num);
      assert before + e.bytes + f + m == before + (e.bytes + f + m);
    } else {
      var f := Stuff(FullBytes(e.pending + OpBits(t, op)));
      assert before + e.bytes + f == before + (e.bytes + f);
    }
  }
}
