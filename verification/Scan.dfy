/** A whole scan as the encoder sees it: MCUs, DC prediction and restart intervals (jchuff.c, encode_mcu_huff). */
module Scans {
  import opened Bits
  import opened Symbols

  /** MCU_membership, the table numbers of each component, and the restart interval (0 means none). */
  datatype ScanConfig = ScanConfig(comps: nat, membership: seq<nat>, dcTbl: seq<nat>, acTbl: seq<nat>,
                                   restartInterval: nat)

  ghost predicate ConfigOk(c: ScanConfig) {
    && 1 <= c.comps <= MAX_COMPS_IN_SCAN
    && |c.membership| <= C_MAX_BLOCKS_IN_MCU
    && |c.dcTbl| == c.comps && |c.acTbl| == c.comps
    && (forall b :: 0 <= b < |c.membership| ==> c.membership[b] < c.comps)
    && (forall ci :: 0 <= ci < c.comps ==> c.dcTbl[ci] < 4)
    && (forall ci :: 0 <= ci < c.comps ==> c.acTbl[ci] < 4)
  }

  ghost predicate McuOk(c: ScanConfig, mcu: Mcu) {
    |mcu| == |c.membership|
  }

  ghost predicate McusOk(c: ScanConfig, mcus: seq<Mcu>) {
    forall i :: 0 <= i < |mcus| ==> McuOk(c, mcus[i])
  }

  /** What changes from MCU to MCU besides the bit buffer. */
  datatype ScanState = ScanState(lastDc: seq<int>, restartsToGo: nat, nextRestart: nat)

  ghost predicate StateOk(c: ScanConfig, s: ScanState) {
    |s.lastDc| == c.comps && s.nextRestart < 8
  }

  function NoPrediction(n: nat): (s: seq<int>)
    ensures |s| == n && forall ci :: 0 <= ci < n ==> s[ci] == 0
  {
    seq(n, i => 0)
  }

  function StartState(c: ScanConfig): ScanState {
    ScanState(NoPrediction(c.comps), c.restartInterval, 0)
  }

  lemma StartOkState(c: ScanConfig)
    ensures StateOk(c, StartState(c))
  {}

  /** The blocks of an MCU from block b on, each predicted from the previous block of its component. */
  ghost function BlocksTrace(c: ScanConfig, lastDc: seq<int>, mcu: Mcu, b: nat): Trace
    requires ConfigOk(c) && McuOk(c, mcu) && |lastDc| == c.comps && b <= |mcu|
    decreases |mcu| - b
  {
    if b == |mcu| then Trace([], false)
    else
      var ci := c.membership[b];
      Then(BlockTrace(mcu[b], lastDc[ci], c.dcTbl[ci], c.acTbl[ci]),
           BlocksTrace(c, lastDc[ci := mcu[b][0]], mcu, b + 1))
  }

  ghost function LastDcAfter(c: ScanConfig, lastDc: seq<int>, mcu: Mcu, b: nat): (r: seq<int>)
    requires ConfigOk(c) && McuOk(c, mcu) && |lastDc| == c.comps && b <= |mcu|
    ensures |r| == c.comps
    decreases |mcu| - b
  {
    if b == |mcu| then lastDc
    else LastDcAfter(c, lastDc[c.membership[b] := mcu[b][0]], mcu, b + 1)
  }

  ghost predicate RestartDue(c: ScanConfig, s: ScanState) {
    c.restartInterval > 0 && s.restartsToGo == 0
  }

  ghost function Prediction(c: ScanConfig, s: ScanState): seq<int> {
    if RestartDue(c, s) then NoPrediction(c.comps) else s.lastDc
  }

  ghost function McuTrace(c: ScanConfig, s: ScanState, mcu: Mcu): Trace
    requires ConfigOk(c) && McuOk(c, mcu) && StateOk(c, s)
  {
    var blocks := BlocksTrace(c, Prediction(c, s), mcu, 0);
    if RestartDue(c, s) then Then(Trace([Restart(s.nextRestart)], false), blocks) else blocks
  }

  ghost function NextState(c: ScanConfig, s: ScanState, mcu: Mcu): (s': ScanState)
    requires ConfigOk(c) && McuOk(c, mcu) && StateOk(c, s)
    ensures StateOk(c, s')
  {
    var lastDc := LastDcAfter(c, Prediction(c, s), mcu, 0);
    if c.restartInterval == 0 then s.(lastDc := lastDc)
    else if RestartDue(c, s) then ScanState(lastDc, c.restartInterval - 1, (s.nextRestart + 1) % 8)
    else ScanState(lastDc, s.restartsToGo - 1, s.nextRestart)
  }

  /** Everything a sequence of MCUs asks to write. */
  ghost function ScanTrace(c: ScanConfig, s: ScanState, mcus: seq<Mcu>): Trace
    requires ConfigOk(c) && McusOk(c, mcus) && StateOk(c, s)
    decreases |mcus|
  {
    if mcus == [] then Trace([], false)
    else Then(McuTrace(c, s, mcus[0]), ScanTrace(c, NextState(c, s, mcus[0]), mcus[1..]))
  }

  ghost function StateAfter(c: ScanConfig, s: ScanState, mcus: seq<Mcu>): (s': ScanState)
    requires ConfigOk(c) && McusOk(c, mcus) && StateOk(c, s)
    ensures StateOk(c, s')
    decreases |mcus|
  {
    if mcus == [] then s else StateAfter(c, NextState(c, s, mcus[0]), mcus[1..])
  }

  lemma BlocksStep(c: ScanConfig, lastDc: seq<int>, mcu: Mcu, b: nat)
    requires ConfigOk(c) && McuOk(c, mcu) && |lastDc| == c.comps && b < |mcu|
    ensures var ci := c.membership[b];
      && BlocksTrace(c, lastDc, mcu, b) == Then(BlockTrace(mcu[b], lastDc[ci], c.dcTbl[ci], c.acTbl[ci]),
                                                BlocksTrace(c, lastDc[ci := mcu[b][0]], mcu, b + 1))
      && LastDcAfter(c, lastDc, mcu, b) == LastDcAfter(c, lastDc[ci := mcu[b][0]], mcu, b + 1)
  {
    hide BlockTrace;
  }

  lemma BlocksEnd(c: ScanConfig, lastDc: seq<int>, mcu: Mcu)
    requires ConfigOk(c) && McuOk(c, mcu) && |lastDc| == c.comps
    ensures BlocksTrace(c, lastDc, mcu, |mcu|) == Trace([], false) && LastDcAfter(c, lastDc, mcu, |mcu|) == lastDc
  {}

  lemma {:induction false} BlocksOpsOk(c: ScanConfig, lastDc: seq<int>, mcu: Mcu, b: nat)
    requires ConfigOk(c) && McuOk(c, mcu) && |lastDc| == c.comps && b <= |mcu|
    ensures OpsOk(BlocksTrace(c, lastDc, mcu, b).ops)
    decreases |mcu| - b
  {
    hide BlockTrace, OpsOk, LastDcAfter;
    if b < |mcu| {
      var ci := c.membership[b];
      var first := BlockTrace(mcu[b], lastDc[ci], c.dcTbl[ci], c.acTbl[ci]);
      var rest := BlocksTrace(c, lastDc[ci := mcu[b][0]], mcu, b + 1);
      BlockOpsOk(mcu[b], lastDc[ci], c.dcTbl[ci], c.acTbl[ci]);
      BlocksOpsOk(c, lastDc[ci := mcu[b][0]], mcu, b + 1);
      OpsOkConcat(first.ops, rest.ops);
    } else {
      OpsOkNil();
    }
  }

  lemma OpsOkNil()
    ensures OpsOk([]) && forall num: nat :: num < 8 ==> OpsOk([Restart(num)])
  {}

  lemma McuOpsOk(c: ScanConfig, s: ScanState, mcu: Mcu)
    requires ConfigOk(c) && McuOk(c, mcu) && StateOk(c, s)
    ensures OpsOk(McuTrace(c, s, mcu).ops)
  {
    hide BlocksTrace, OpsOk;
    var blocks := BlocksTrace(c, Prediction(c, s), mcu, 0);
    BlocksOpsOk(c, Prediction(c, s), mcu, 0);
    OpsOkNil();
    OpsOkConcat([Restart(s.nextRestart)], blocks.ops);
  }

  lemma ScanStep(c: ScanConfig, s: ScanState, mcus: seq<Mcu>)
    requires ConfigOk(c) && McusOk(c, mcus) && StateOk(c, s)
    ensures ScanTrace(c, s, []) == Trace([], false) && StateAfter(c, s, []) == s
    ensures mcus != [] ==>
      && McuOk(c, mcus[0]) && McusOk(c, mcus[1..])
      && ScanTrace(c, s, mcus) == Then(McuTrace(c, s, mcus[0]), ScanTrace(c, NextState(c, s, mcus[0]), mcus[1..]))
      && StateAfter(c, s, mcus) == StateAfter(c, NextState(c, s, mcus[0]), mcus[1..])
  {
    hide McuTrace, NextState;
  }

  lemma {:induction false} ScanOpsOk(c: ScanConfig, s: ScanState, mcus: seq<Mcu>)
    requires ConfigOk(c) && McusOk(c, mcus) && StateOk(c, s)
    ensures OpsOk(ScanTrace(c, s, mcus).ops)
    decreases |mcus|
  {
    hide McuTrace, NextState, OpsOk, ScanTrace, StateAfter;
    ScanStep(c, s, mcus);
    OpsOkNil();
    if mcus != [] {
      McuOpsOk(c, s, mcus[0]);
      ScanOpsOk(c, NextState(c, s, mcus[0]), mcus[1..]);
      OpsOkConcat(McuTrace(c, s, mcus[0]).ops, ScanTrace(c, NextState(c, s, mcus[0]), mcus[1..]).ops);
    }
  }

  lemma ThenAssoc(a: Trace, b: Trace, d: Trace)
    ensures Then(Then(a, b), d) == Then(a, Then(b, d))
  {
    assert a.ops + b.ops + d.ops == a.ops + (b.ops + d.ops);
  }

  /** Writing more MCUs extends the trace. */
  lemma {:induction false} ScanSnoc(c: ScanConfig, s: ScanState, mcus: seq<Mcu>, mcu: Mcu)
    requires ConfigOk(c) && McusOk(c, mcus) && McuOk(c, mcu) && StateOk(c, s)
    ensures McusOk(c, mcus + [mcu])
    ensures ScanTrace(c, s, mcus + [mcu]) == Then(ScanTrace(c, s, mcus), McuTrace(c, StateAfter(c, s, mcus), mcu))
    ensures StateAfter(c, s, mcus + [mcu]) == NextState(c, StateAfter(c, s, mcus), mcu)
    decreases |mcus|
  {
    hide McuTrace, NextState, ScanTrace, StateAfter;
    ScanStep(c, s, mcus);
    ScanStep(c, s, mcus + [mcu]);
    if mcus == [] {
      var tr := McuTrace(c, s, mcu);
      assert ([] + [mcu])[1..] == [] && mcus + [mcu] == [mcu];
      ScanStep(c, NextState(c, s, mcu), []);
      assert tr.ops + [] == tr.ops && [] + tr.ops == tr.ops;
    } else {
      var s' := NextState(c, s, mcus[0]);
      assert (mcus + [mcu])[1..] == mcus[1..] + [mcu];
      ScanSnoc(c, s', mcus[1..], mcu);
      ThenAssoc(McuTrace(c, s, mcus[0]), ScanTrace(c, s', mcus[1..]), McuTrace(c, StateAfter(c, s, mcus), mcu));
    }
  }

  // ---- restart markers (T.81 section B.2.1) ----

  /** The number of MCUs in q full intervals and j more. */
  function McuCount(q: nat, r: nat, j: nat): (n: nat)
    ensures n >= j
  {
    q * r + j
  }

  lemma McuCountStep(q: nat, r: nat, j: nat)
    requires 1 <= j <= r
    ensures j > 1 ==> McuCount(q, r, j - 1) == McuCount(q, r, j) - 1
    ensures q == 0 ==> McuCount(q, r, 1) == 1
    ensures q > 0 ==> McuCount(q - 1, r, r) == McuCount(q, r, 1) - 1 && ((q - 1) % 8 + 1) % 8 == q % 8
  {
    Distribute(q - 1, 1, r);
  }

  /** After q full intervals and j more MCUs, j MCUs of the interval are used and q markers have been written. */
  lemma {:induction false} RestartCounters(c: ScanConfig, mcus: seq<Mcu>, q: nat, j: nat)
    requires ConfigOk(c) && McusOk(c, mcus) && c.restartInterval > 0
    requires 1 <= j <= c.restartInterval && |mcus| == McuCount(q, c.restartInterval, j)
    ensures var s := StateAfter(c, StartState(c), mcus);
      s.restartsToGo == c.restartInterval - j && s.nextRestart == q % 8
    decreases |mcus|
  {
    hide *;
    var n, r := |mcus| - 1, c.restartInterval;
    var before := mcus[..n];
    Prefix(c, mcus, n);
    assert mcus == before + [mcus[n]];
    StartCounters(c);
    ScanSnoc(c, StartState(c), before, mcus[n]);
    NextCounters(c, StateAfter(c, StartState(c), before), mcus[n]);
    McuCountStep(q, r, j);
    if j > 1 {
      RestartCounters(c, before, q, j - 1);
    } else if q == 0 {
      ScanStep(c, StartState(c), []);
      assert before == [];
    } else {
      RestartCounters(c, before, q - 1, r);
    }
  }

  lemma StartCounters(c: ScanConfig)
    ensures StartState(c).restartsToGo == c.restartInterval && StartState(c).nextRestart == 0
    ensures ConfigOk(c) ==> StateOk(c, StartState(c))
  {}

  lemma NextCounters(c: ScanConfig, s: ScanState, mcu: Mcu)
    requires ConfigOk(c) && McuOk(c, mcu) && StateOk(c, s) && c.restartInterval > 0
    ensures var s' := NextState(c, s, mcu);
      if s.restartsToGo == 0 then s'.restartsToGo == c.restartInterval - 1 && s'.nextRestart == (s.nextRestart + 1) % 8
      else s'.restartsToGo == s.restartsToGo - 1 && s'.nextRestart == s.nextRestart
  {
    hide LastDcAfter;
  }

  lemma Prefix(c: ScanConfig, mcus: seq<Mcu>, n: nat)
    requires McusOk(c, mcus) && n < |mcus|
    ensures McusOk(c, mcus[..n]) && McuOk(c, mcus[n])
  {}

  lemma Interval(m: nat, r: nat) returns (q: nat, j: nat)
    requires m > 0 && r > 0
    ensures 1 <= j <= r && m == McuCount(q, r, j)
    ensures j == r ==> m % r == 0 && m / r == q + 1
    ensures j < r ==> m % r != 0
  {
    q, j := (m - 1) / r, (m - 1) % r + 1;
    assert m == q * r + j;
    if j == r {
      Distribute(q, 1, r);
      DivModUnique(m, r, q + 1, 0);
    } else {
      DivModUnique(m, r, q, j);
    }
  }

  /** A marker precedes MCU m exactly when m > 0 and the interval divides m; marker n (from 0) is RST(n mod 8). */
  lemma RestartDiscipline(c: ScanConfig, mcus: seq<Mcu>)
    requires ConfigOk(c) && McusOk(c, mcus) && c.restartInterval > 0
    ensures var s := StateAfter(c, StartState(c), mcus);
      && (RestartDue(c, s) <==> |mcus| > 0 && |mcus| % c.restartInterval == 0)
      && (RestartDue(c, s) ==> s.nextRestart == (|mcus| / c.restartInterval - 1) % 8)
  {
    hide ScanTrace, StateAfter, McusOk, ConfigOk;
    if |mcus| == 0 {
      ScanStep(c, StartState(c), []);
    } else {
      var q, j := Interval(|mcus|, c.restartInterval);
      RestartCounters(c, mcus, q, j);
    }
  }
}
