/** A scan in closed form: which blocks, predicted from what, and which markers it consists of. */
module ScanLayouts {
  import opened Bits
  import opened Symbols
  import opened Scans

  /** The DC value from which block b of MCU i is predicted if it belongs to component ci: that of the block of this
      component before it, zero at the start of the scan and of every restart interval. */
  ghost function DcBefore(c: ScanConfig, mcus: seq<Mcu>, i: nat, b: nat, ci: nat): int
    requires ConfigOk(c) && McusOk(c, mcus) && i < |mcus| && b <= |c.membership|
    decreases i, b
  {
    if b > 0 then
      if c.membership[b - 1] == ci then mcus[i][b - 1][0] else DcBefore(c, mcus, i, b - 1, ci)
    else if i == 0 || (c.restartInterval > 0 && i % c.restartInterval == 0) then 0
    else DcBefore(c, mcus, i - 1, |c.membership|, ci)
  }

  /** The operations for block b of MCU i: those of its component's tables. */
  ghost function BlockOps(c: ScanConfig, mcus: seq<Mcu>, i: nat, b: nat): seq<Op>
    requires ConfigOk(c) && McusOk(c, mcus) && i < |mcus| && b < |c.membership|
  {
    var ci := c.membership[b];
    BlockTrace(mcus[i][b], DcBefore(c, mcus, i, b, ci), c.dcTbl[ci], c.acTbl[ci]).ops
  }

  /** The marker in front of MCU i. */
  function MarkerOps(c: ScanConfig, i: nat): seq<Op> {
    if i > 0 && c.restartInterval > 0 && i % c.restartInterval == 0 then [Restart((i / c.restartInterval - 1) % 8)]
    else []
  }

  /** Everything before block b of MCU i. */
  ghost function Layout(c: ScanConfig, mcus: seq<Mcu>, i: nat, b: nat): seq<Op>
    requires ConfigOk(c) && McusOk(c, mcus) && i < |mcus| && b <= |c.membership|
    decreases i, b
  {
    if b > 0 then Layout(c, mcus, i, b - 1) + BlockOps(c, mcus, i, b - 1)
    else if i > 0 then Layout(c, mcus, i - 1, |c.membership|) + MarkerOps(c, i)
    else []
  }

  /** Block b of MCU i can be coded. */
  ghost predicate Fine(c: ScanConfig, mcus: seq<Mcu>, i: nat, b: nat)
    requires ConfigOk(c) && McusOk(c, mcus) && i < |mcus| && b < |c.membership|
  {
    InRange(mcus[i][b], DcBefore(c, mcus, i, b, c.membership[b]))
  }

  /** lastDc is what the blocks from b of MCU i on are predicted from. */
  ghost predicate Predicts(c: ScanConfig, mcus: seq<Mcu>, i: nat, b: nat, lastDc: seq<int>)
    requires ConfigOk(c) && McusOk(c, mcus) && i < |mcus| && b <= |c.membership|
  {
    |lastDc| == c.comps && forall ci :: 0 <= ci < c.comps ==> lastDc[ci] == DcBefore(c, mcus, i, b, ci)
  }

  lemma PredictsNext(c: ScanConfig, mcus: seq<Mcu>, i: nat, b: nat, lastDc: seq<int>)
    requires ConfigOk(c) && McusOk(c, mcus) && i < |mcus| && b < |c.membership| && Predicts(c, mcus, i, b, lastDc)
    ensures McuOk(c, mcus[i]) && Predicts(c, mcus, i, b + 1, lastDc[c.membership[b] := mcus[i][b][0]])
  {}

  /** The rest of an MCU. */
  lemma {:induction false} McuLayout(c: ScanConfig, mcus: seq<Mcu>, i: nat, b: nat, lastDc: seq<int>)
    requires ConfigOk(c) && McusOk(c, mcus) && i < |mcus| && b <= |c.membership| && |lastDc| == c.comps
    requires Predicts(c, mcus, i, b, lastDc)
    ensures McuOk(c, mcus[i])
    ensures Predicts(c, mcus, i, |c.membership|, LastDcAfter(c, lastDc, mcus[i], b))
    ensures var tr := BlocksTrace(c, lastDc, mcus[i], b);
      && (!tr.bad <==> forall b' :: b <= b' < |c.membership| ==> Fine(c, mcus, i, b'))
      && (!tr.bad ==> Layout(c, mcus, i, |c.membership|) == Layout(c, mcus, i, b) + tr.ops)
    decreases |c.membership| - b
  {
    hide BlocksTrace, LastDcAfter, BlockTrace, Layout, DcBefore, InRange, Predicts;
    var mcu := mcus[i];
    if b == |c.membership| {
      BlocksEnd(c, lastDc, mcu);
    } else {
      BlocksStep(c, lastDc, mcu, b);
      PredictsNext(c, mcus, i, b, lastDc);
      McuLayout(c, mcus, i, b + 1, lastDc[c.membership[b] := mcu[b][0]]);
      BlockHere(c, mcus, i, b, lastDc);
      LayoutStep(c, mcus, i, b);
      var rest := BlocksTrace(c, lastDc[c.membership[b] := mcu[b][0]], mcu, b + 1);
      assert Layout(c, mcus, i, b) + BlockOps(c, mcus, i, b) + rest.ops
        == Layout(c, mcus, i, b) + (BlockOps(c, mcus, i, b) + rest.ops);
    }
  }

  lemma BlockHere(c: ScanConfig, mcus: seq<Mcu>, i: nat, b: nat, lastDc: seq<int>)
    requires ConfigOk(c) && McusOk(c, mcus) && i < |mcus| && b < |c.membership| && Predicts(c, mcus, i, b, lastDc)
    ensures McuOk(c, mcus[i])
    ensures var ci := c.membership[b];
      var tr := BlockTrace(mcus[i][b], lastDc[ci], c.dcTbl[ci], c.acTbl[ci]);
      tr.ops == BlockOps(c, mcus, i, b) && (tr.bad <==> !Fine(c, mcus, i, b))
  {
    hide BlockTrace, DcBefore, InRange;
    var ci := c.membership[b];
    BlockBad(mcus[i][b], lastDc[ci], c.dcTbl[ci], c.acTbl[ci]);
  }

  lemma LayoutStep(c: ScanConfig, mcus: seq<Mcu>, i: nat, b: nat)
    requires ConfigOk(c) && McusOk(c, mcus) && i < |mcus| && b < |c.membership|
    ensures Layout(c, mcus, i, b + 1) == Layout(c, mcus, i, b) + BlockOps(c, mcus, i, b)
    ensures Layout(c, mcus, i, 0) == if i > 0 then Layout(c, mcus, i - 1, |c.membership|) + MarkerOps(c, i) else []
  {
    hide BlockTrace, DcBefore;
  }

  lemma LayoutStart(c: ScanConfig, mcus: seq<Mcu>, i: nat)
    requires ConfigOk(c) && McusOk(c, mcus) && i < |mcus|
    ensures Layout(c, mcus, i, 0) == if i > 0 then Layout(c, mcus, i - 1, |c.membership|) + MarkerOps(c, i) else []
  {
    hide BlockTrace, DcBefore;
  }

  /** The first n MCUs can be coded. */
  ghost predicate FineTo(c: ScanConfig, mcus: seq<Mcu>, n: nat)
    requires ConfigOk(c) && McusOk(c, mcus) && n <= |mcus|
  {
    forall i, b :: 0 <= i < n && 0 <= b < |c.membership| ==> Fine(c, mcus, i, b)
  }

  /** What the encoder asks to write for n MCUs, and what it predicts from afterwards. */
  lemma {:induction false} LayoutTo(c: ScanConfig, mcus: seq<Mcu>, n: nat)
    requires ConfigOk(c) && McusOk(c, mcus) && n <= |mcus|
    ensures McusOk(c, mcus[..n]) && StateOk(c, StartState(c))
    ensures var tr, s := ScanTrace(c, StartState(c), mcus[..n]), StateAfter(c, StartState(c), mcus[..n]);
      && (!tr.bad <==> FineTo(c, mcus, n))
      && (!tr.bad ==> tr.ops == if n == 0 then [] else Layout(c, mcus, n - 1, |c.membership|))
      && (n > 0 ==> Predicts(c, mcus, n - 1, |c.membership|, s.lastDc))
  {
    hide ScanTrace, StateAfter, McuTrace, NextState, Layout, Fine, Predicts, BlockOps, StartState;
    StartOkState(c);
    ScanStep(c, StartState(c), []);
    if n == 0 {
      assert mcus[..0] == [];
    } else {
      LayoutTo(c, mcus, n - 1);
      var before, s := mcus[..n - 1], StateAfter(c, StartState(c), mcus[..n - 1]);
      assert mcus[..n] == before + [mcus[n - 1]];
      ScanSnoc(c, StartState(c), before, mcus[n - 1]);
      NextMcu(c, mcus, n - 1, s);
      LayoutStart(c, mcus, n - 1);
    }
  }

  /** One more MCU after a state that predicts it. */
  lemma NextMcu(c: ScanConfig, mcus: seq<Mcu>, i: nat, s: ScanState)
    requires ConfigOk(c) && McusOk(c, mcus) && i < |mcus| && McusOk(c, mcus[..i]) && StateOk(c, StartState(c))
    requires s == StateAfter(c, StartState(c), mcus[..i])
    requires i > 0 ==> Predicts(c, mcus, i - 1, |c.membership|, s.lastDc)
    ensures McuOk(c, mcus[i])
    ensures Predicts(c, mcus, i, |c.membership|, NextState(c, s, mcus[i]).lastDc)
    ensures var tr := McuTrace(c, s, mcus[i]);
      && (!tr.bad <==> forall b :: 0 <= b < |c.membership| ==> Fine(c, mcus, i, b))
      && (!tr.bad ==>
           Layout(c, mcus, i, |c.membership|)
             == (if i > 0 then Layout(c, mcus, i - 1, |c.membership|) else []) + tr.ops)
  {
    hide StateAfter, BlocksTrace, LastDcAfter, Layout, Fine, BlockOps, ScanTrace;
    DueAt(c, mcus[..i], s);
    PredictsStart(c, mcus, i, s);
    McuLayout(c, mcus, i, 0, Prediction(c, s));
    LayoutStart(c, mcus, i);
    var tr := BlocksTrace(c, Prediction(c, s), mcus[i], 0);
    var before := if i > 0 then Layout(c, mcus, i - 1, |c.membership|) else [];
    assert before + MarkerOps(c, i) + tr.ops == before + (MarkerOps(c, i) + tr.ops);
    assert [] + tr.ops == tr.ops;
  }

  lemma DueAt(c: ScanConfig, before: seq<Mcu>, s: ScanState)
    requires ConfigOk(c) && McusOk(c, before) && StateOk(c, StartState(c)) && s == StateAfter(c, StartState(c), before)
    ensures RestartDue(c, s) <==> MarkerOps(c, |before|) != []
    ensures RestartDue(c, s) ==> MarkerOps(c, |before|) == [Restart(s.nextRestart)]
    ensures before == [] ==> s == StartState(c)
  {
    hide StateAfter, ScanTrace, StartState;
    if c.restartInterval > 0 { RestartDiscipline(c, before); }
    ScanStep(c, StartState(c), []);
  }

  lemma PredictsStart(c: ScanConfig, mcus: seq<Mcu>, i: nat, s: ScanState)
    requires ConfigOk(c) && McusOk(c, mcus) && i < |mcus| && StateOk(c, s)
    requires RestartDue(c, s) <==> MarkerOps(c, i) != []
    requires if i == 0 then s == StartState(c) else Predicts(c, mcus, i - 1, |c.membership|, s.lastDc)
    ensures Predicts(c, mcus, i, 0, Prediction(c, s))
  {}

  /** A scan in closed form. It can be coded if and only if every block is in range; it then consists of all blocks in
      order, with a marker in front of every MCU whose number the restart interval divides. */
  lemma ScanLayout(c: ScanConfig, mcus: seq<Mcu>)
    requires ConfigOk(c) && McusOk(c, mcus) && mcus != []
    ensures StateOk(c, StartState(c))
    ensures !ScanTrace(c, StartState(c), mcus).bad
      <==> forall i, b :: 0 <= i < |mcus| && 0 <= b < |c.membership| ==> Fine(c, mcus, i, b)
    ensures !ScanTrace(c, StartState(c), mcus).bad ==>
      ScanTrace(c, StartState(c), mcus).ops == Layout(c, mcus, |mcus| - 1, |c.membership|)
  {
    hide ScanTrace, Layout, Fine, StartState;
    LayoutTo(c, mcus, |mcus|);
    assert mcus[..|mcus|] == mcus;
  }
}
