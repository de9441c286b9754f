/** The two-pass scheme: gather statistics, generate tables, encode (jchuff.c, encode_mcu_gather and
    finish_pass_gather). */
module GatherPass {
  import opened Bits
  import opened Symbols
  import opened Scans
  import opened HuffmanForest
  import opened Statistics

  /** The contents of the statistics arrays. */
  datatype Counts = Counts(dc: seq<seq<nat>>, ac: seq<seq<nat>>)

  ghost predicate CountsOk(c: Counts) {
    && |c.dc| == 4 && |c.ac| == 4
    && (forall i :: 0 <= i < 4 ==> |c.dc[i]| == NSYM)
    && (forall i :: 0 <= i < 4 ==> |c.ac[i]| == NSYM)
  }

  /** Every count has grown by the number of times its symbol is written. */
  ghost predicate Grown(c: Counts, c0: Counts, ops: seq<Op>)
    requires CountsOk(c) && CountsOk(c0)
  {
    && (forall i, s :: 0 <= i < 4 && 0 <= s < NSYM ==> c.dc[i][s] == c0.dc[i][s] + Uses(ops, true, i, s))
    && (forall i, s :: 0 <= i < 4 && 0 <= s < NSYM ==> c.ac[i][s] == c0.ac[i][s] + Uses(ops, false, i, s))
  }

  lemma GrownNothing(c: Counts)
    requires CountsOk(c)
    ensures Grown(c, c, [])
  {}

  lemma GrownThen(c: Counts, c1: Counts, c0: Counts, a: seq<Op>, b: seq<Op>)
    requires CountsOk(c) && CountsOk(c1) && CountsOk(c0) && Grown(c1, c0, a) && Grown(c, c1, b)
    ensures Grown(c, c0, a + b)
  {
    forall isDC, tbl, s ensures Uses(a + b, isDC, tbl, s) == Uses(a, isDC, tbl, s) + Uses(b, isDC, tbl, s) {
      UsesConcat(a, b, isDC, tbl, s);
    }
  }

  /** Operations that use only one DC table and one AC table. */
  ghost predicate UsesOnly(ops: seq<Op>, dcNo: nat, acNo: nat) {
    forall i :: 0 <= i < |ops| && ops[i].Huff? ==> ops[i].tbl == if ops[i].isDC then dcNo else acNo
  }

  lemma {:induction false} AcUsesOnly(block: Block, acNo: nat, dcNo: nat, k: nat, r: nat)
    requires 1 <= k <= 64
    ensures UsesOnly(AcTrace(block, acNo, k, r).ops, dcNo, acNo)
    decreases 64 - k, r
  {
    hide AcTrace, Zigzag, BitLen;
    AcStep(block, acNo, k, r);
    if k < 64 {
      if Zigzag(block, k) == 0 {
        AcUsesOnly(block, acNo, dcNo, k + 1, r + 1);
      } else if r > 15 {
        AcUsesOnly(block, acNo, dcNo, k, r - 16);
      } else {
        AcUsesOnly(block, acNo, dcNo, k + 1, 0);
      }
    }
  }

  lemma BlockUsesOnly(block: Block, lastDc: int, dcNo: nat, acNo: nat)
    ensures UsesOnly(BlockTrace(block, lastDc, dcNo, acNo).ops, dcNo, acNo)
  {
    hide AcTrace, BitLen;
    AcUsesOnly(block, acNo, dcNo, 1, 0);
  }

  lemma OtherTablesUnused(ops: seq<Op>, dcNo: nat, acNo: nat, isDC: bool, tbl: nat, sym: nat)
    requires UsesOnly(ops, dcNo, acNo) && tbl != (if isDC then dcNo else acNo)
    ensures Uses(ops, isDC, tbl, sym) == 0
  {
    if Uses(ops, isDC, tbl, sym) > 0 {
      var i := Position(ops, Huff(isDC, tbl, sym));
      assert false;
    }
  }

  lemma Position(ops: seq<Op>, op: Op) returns (i: nat)
    requires multiset(ops)[op] > 0
    ensures i < |ops| && ops[i] == op
  {
    assert op in ops;
    i :| i < |ops| && ops[i] == op;
  }

  /** Counting into two of the arrays is counting into all of them. */
  lemma TalliedGrown(c: Counts, c0: Counts, ops: seq<Op>, dcNo: nat, acNo: nat)
    requires CountsOk(c) && CountsOk(c0) && dcNo < 4 && acNo < 4 && UsesOnly(ops, dcNo, acNo)
    requires Tallied(c.dc[dcNo], c.ac[acNo], c0.dc[dcNo], c0.ac[acNo], ops, dcNo, acNo)
    requires forall i :: 0 <= i < 4 && i != dcNo ==> c.dc[i] == c0.dc[i]
    requires forall i :: 0 <= i < 4 && i != acNo ==> c.ac[i] == c0.ac[i]
    ensures Grown(c, c0, ops)
  {
    hide Uses, UsesOnly;
    forall i, s | 0 <= i < 4 && 0 <= s < NSYM ensures c.dc[i][s] == c0.dc[i][s] + Uses(ops, true, i, s) {
      if i != dcNo { OtherTablesUnused(ops, dcNo, acNo, true, i, s); }
    }
    forall i, s | 0 <= i < 4 && 0 <= s < NSYM ensures c.ac[i][s] == c0.ac[i][s] + Uses(ops, false, i, s) {
      if i != acNo { OtherTablesUnused(ops, dcNo, acNo, false, i, s); }
    }
  }

  ghost predicate AllZero(s: seq<nat>) {
    forall i :: 0 <= i < |s| ==> s[i] == 0
  }

  /** The tables of the first n components are all zero. */
  ghost predicate ClearedFor(c: ScanConfig, k: Counts, n: nat)
    requires ConfigOk(c) && CountsOk(k) && n <= c.comps
  {
    forall ci :: 0 <= ci < n ==> AllZero(k.dc[c.dcTbl[ci]]) && AllZero(k.ac[c.acTbl[ci]])
  }

  /** The entropy encoder while it gathers statistics. */
  class StatisticsPass {
    const cfg: ScanConfig
    const dcCounts: seq<array<nat>>
    const acCounts: seq<array<nat>>
    var lastDcVal: seq<int>
    var restartsToGo: nat

    ghost predicate Valid()
      reads this
    {
      && ConfigOk(cfg) && |lastDcVal| == cfg.comps
      && |dcCounts| == 4 && |acCounts| == 4
      && (forall i :: 0 <= i < 4 ==> dcCounts[i].Length == NSYM)
      && (forall i :: 0 <= i < 4 ==> acCounts[i].Length == NSYM)
      && (forall i, j :: 0 <= i < j < 4 ==> dcCounts[i] != dcCounts[j])
      && (forall i, j :: 0 <= i < j < 4 ==> acCounts[i] != acCounts[j])
      && (forall i, j :: 0 <= i < 4 && 0 <= j < 4 ==> dcCounts[i] != acCounts[j])
    }

    ghost function Snapshot(): (c: Counts)
      requires Valid()
      reads this, dcCounts, acCounts
      ensures CountsOk(c)
    {
      Counts([dcCounts[0][..], dcCounts[1][..], dcCounts[2][..], dcCounts[3][..]],
             [acCounts[0][..], acCounts[1][..], acCounts[2][..], acCounts[3][..]])
    }

    constructor (cfg: ScanConfig)
      requires ConfigOk(cfg)
      ensures Valid() && fresh(dcCounts) && fresh(acCounts) && this.cfg == cfg
    {
      this.cfg := cfg;
      lastDcVal, restartsToGo := NoPrediction(cfg.comps), 0;
      var d0, d1, d2, d3 := new nat[NSYM], new nat[NSYM], new nat[NSYM], new nat[NSYM];
      var a0, a1, a2, a3 := new nat[NSYM], new nat[NSYM], new nat[NSYM], new nat[NSYM];
      dcCounts, acCounts := [d0, d1, d2, d3], [a0, a1, a2, a3];
    }

    ghost predicate Zeroed(a: array<nat>)
      reads a
    {
      forall s :: 0 <= s < a.Length ==> a[s] == 0
    }

    /** MEMZERO of one statistics table. */
    method Clear(a: array<nat>)
      requires a.Length == NSYM
      modifies a
      ensures Zeroed(a)
    {
      for i := 0 to NSYM
        invariant forall s :: 0 <= s < i ==> a[s] == 0
      {
        a[i] := 0;
      }
    }

    /** start_pass_huff with statistics: clears the tables of every component. */
    method StartGather()
      requires Valid()
      modifies this, dcCounts, acCounts
      ensures Valid() && lastDcVal == StartState(cfg).lastDc && restartsToGo == StartState(cfg).restartsToGo
      ensures ClearedFor(cfg, Snapshot(), cfg.comps)
      ensures |lastDcVal| == cfg.comps && forall ci :: 0 <= ci < cfg.comps ==> lastDcVal[ci] == 0
      ensures restartsToGo == cfg.restartInterval
    {
      for ci := 0 to cfg.comps
        invariant Valid()
        invariant forall cj :: 0 <= cj < ci ==> Zeroed(dcCounts[cfg.dcTbl[cj]]) && Zeroed(acCounts[cfg.acTbl[cj]])
      {
        Clear(dcCounts[cfg.dcTbl[ci]]);
        Clear(acCounts[cfg.acTbl[ci]]);
      }
      lastDcVal := NoPrediction(cfg.comps);
      restartsToGo := cfg.restartInterval;
    }

    /** One block of component ci. */
    method GatherBlock(block: Block, ci: nat) returns (ok: bool)
      requires Valid() && ci < cfg.comps
      modifies this`lastDcVal, dcCounts, acCounts
      ensures Valid()
      ensures var tr := BlockTrace(block, old(lastDcVal[ci]), cfg.dcTbl[ci], cfg.acTbl[ci]);
        (ok <==> !tr.bad) && (ok ==> Grown(Snapshot(), old(Snapshot()), tr.ops))
      ensures ok ==> lastDcVal == old(lastDcVal)[ci := block[0]]
    {
      hide BlockTrace, Uses, Grown, Tallied, UsesOnly;
      var dcNo, acNo := cfg.dcTbl[ci], cfg.acTbl[ci];
      ghost var c0 := Snapshot();
      ghost var tr := BlockTrace(block, lastDcVal[ci], dcNo, acNo);
      assert c0.dc[dcNo] == dcCounts[dcNo][..] && c0.ac[acNo] == acCounts[acNo][..];
      ok := CountBlock(block, lastDcVal[ci], dcCounts[dcNo], acCounts[acNo], dcNo, acNo);
      if ok {
        ghost var c := Snapshot();
        assert c.dc[dcNo] == dcCounts[dcNo][..] && c.ac[acNo] == acCounts[acNo][..];
        BlockUsesOnly(block, lastDcVal[ci], dcNo, acNo);
        TalliedGrown(c, c0, tr.ops, dcNo, acNo);
        lastDcVal := lastDcVal[ci := block[0]];
      }
    }

    /** encode_mcu_gather: counts exactly what encode_mcu_huff writes for the blocks of this MCU. */
    method GatherMcu(mcu: Mcu) returns (ok: bool)
      requires Valid() && McuOk(cfg, mcu)
      modifies this, dcCounts, acCounts
      ensures Valid()
      ensures var s := ScanState(old(lastDcVal), old(restartsToGo), 0);
        var tr := BlocksTrace(cfg, Prediction(cfg, s), mcu, 0);
        && (ok <==> !tr.bad)
        && (ok ==> Grown(Snapshot(), old(Snapshot()), tr.ops))
        && (ok ==> lastDcVal == NextState(cfg, s, mcu).lastDc && restartsToGo == NextState(cfg, s, mcu).restartsToGo)
    {
      hide BlocksTrace, LastDcAfter, Grown;
      ghost var c0 := Snapshot();
      if cfg.restartInterval != 0 {
        if restartsToGo == 0 {
          lastDcVal := NoPrediction(cfg.comps);
          restartsToGo := cfg.restartInterval;
        }
        restartsToGo := restartsToGo - 1;
      }
      assert Snapshot() == c0;
      ok := GatherBlocks(mcu);
    }

    /** The block loop of encode_mcu_gather. */
    method GatherBlocks(mcu: Mcu) returns (ok: bool)
      requires Valid() && McuOk(cfg, mcu)
      modifies this`lastDcVal, dcCounts, acCounts
      ensures Valid()
      ensures var tr := BlocksTrace(cfg, old(lastDcVal), mcu, 0);
        && (ok <==> !tr.bad)
        && (ok ==> Grown(Snapshot(), old(Snapshot()), tr.ops))
        && (ok ==> lastDcVal == LastDcAfter(cfg, old(lastDcVal), mcu, 0))
    {
      hide BlocksTrace, LastDcAfter, Grown, BlockTrace, Snapshot;
      ghost var c0, last0, done := Snapshot(), lastDcVal, [];
      ghost var tr := BlocksTrace(cfg, last0, mcu, 0);
      GrownNothing(c0);
      assert [] + tr.ops == tr.ops;
      for b := 0 to |cfg.membership|
        invariant Valid()
        invariant LastDcAfter(cfg, lastDcVal, mcu, b) == LastDcAfter(cfg, last0, mcu, 0)
        invariant var rest := BlocksTrace(cfg, lastDcVal, mcu, b); tr.ops == done + rest.ops && tr.bad == rest.bad
        invariant Grown(Snapshot(), c0, done)
      {
        BlocksStep(cfg, lastDcVal, mcu, b);
        var ci := cfg.membership[b];
        ghost var bt := BlockTrace(mcu[b], lastDcVal[ci], cfg.dcTbl[ci], cfg.acTbl[ci]);
        ghost var c1 := Snapshot();
        ok := GatherBlock(mcu[b], ci);
        if !ok {
          return;
        }
        GrownThen(Snapshot(), c1, c0, done, bt.ops);
        done := done + bt.ops;
      }
      BlocksEnd(cfg, lastDcVal, mcu);
      assert tr.ops == done;
      ok := true;
    }
  }
}
