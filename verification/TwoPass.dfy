/** The statistics pass over a whole scan, and the tables generated from it (jchuff.c, finish_pass_gather). */
module TwoPass {
  import opened Bits
  import opened Sums
  import opened Symbols
  import opened HuffmanTable
  import opened Scans
  import opened EntropyEncoder
  import opened HuffmanForest
  import opened FrequencyLimits
  import opened OptimalTable
  import opened Statistics
  import opened GatherPass
  import LengthLimit

  // ---- statistics agree with emission ----

  /** Restart markers are not counted. */
  lemma McuUses(c: ScanConfig, s: ScanState, mcu: Mcu, isDC: bool, tbl: nat, sym: nat)
    requires ConfigOk(c) && McuOk(c, mcu) && StateOk(c, s)
    ensures Uses(McuTrace(c, s, mcu).ops, isDC, tbl, sym)
      == Uses(BlocksTrace(c, Prediction(c, s), mcu, 0).ops, isDC, tbl, sym)
  {
    hide BlocksTrace;
    if RestartDue(c, s) {
      UsesConcat([Restart(s.nextRestart)], BlocksTrace(c, Prediction(c, s), mcu, 0).ops, isDC, tbl, sym);
    }
  }

  lemma GrownMcu(c: ScanConfig, s: ScanState, mcu: Mcu, k: Counts, k0: Counts)
    requires ConfigOk(c) && McuOk(c, mcu) && StateOk(c, s) && CountsOk(k) && CountsOk(k0)
    requires Grown(k, k0, BlocksTrace(c, Prediction(c, s), mcu, 0).ops)
    ensures Grown(k, k0, McuTrace(c, s, mcu).ops)
  {
    hide BlocksTrace, McuTrace, Uses;
    forall isDC, tbl, sym ensures Uses(McuTrace(c, s, mcu).ops, isDC, tbl, sym)
      == Uses(BlocksTrace(c, Prediction(c, s), mcu, 0).ops, isDC, tbl, sym)
    {
      McuUses(c, s, mcu, isDC, tbl, sym);
    }
  }

  /** What the statistics pass tracks of the state is what the encoding pass has. */
  ghost predicate InStep(g: StatisticsPass, s: ScanState)
    reads g
  {
    g.lastDcVal == s.lastDc && g.restartsToGo == s.restartsToGo
  }

  lemma InStepNext(c: ScanConfig, s: ScanState, s': ScanState, mcu: Mcu)
    requires ConfigOk(c) && McuOk(c, mcu) && StateOk(c, s) && StateOk(c, s')
    requires s.lastDc == s'.lastDc && s.restartsToGo == s'.restartsToGo
    ensures Prediction(c, s) == Prediction(c, s')
    ensures BlocksTrace(c, Prediction(c, s), mcu, 0).bad == McuTrace(c, s', mcu).bad
    ensures NextState(c, s, mcu).lastDc == NextState(c, s', mcu).lastDc
    ensures NextState(c, s, mcu).restartsToGo == NextState(c, s', mcu).restartsToGo
  {
    hide BlocksTrace, LastDcAfter;
  }

  /** An out-of-range coefficient among the first n MCUs makes the whole trace bad. */
  lemma {:induction false} PrefixBad(c: ScanConfig, mcus: seq<Mcu>, n: nat)
    requires ConfigOk(c) && McusOk(c, mcus) && n <= |mcus| && McusOk(c, mcus[..n])
    requires ScanTrace(c, StartState(c), mcus[..n]).bad
    ensures ScanTrace(c, StartState(c), mcus).bad
    decreases |mcus|
  {
    hide ScanTrace, StateAfter, McuTrace, NextState, McuOk, ConfigOk;
    if n == |mcus| {
      assert mcus[..n] == mcus;
    } else {
      var before, last := mcus[..|mcus| - 1], mcus[|mcus| - 1];
      assert mcus == before + [last] && before[..n] == mcus[..n];
      PrefixBad(c, before, n);
      ScanSnoc(c, StartState(c), before, last);
    }
  }

  /** The statistics pass over a scan: every count grows by the number of times the encoding pass writes the symbol;
      it fails exactly when the encoding pass would meet an out-of-range coefficient. */
  method GatherScan(g: StatisticsPass, mcus: seq<Mcu>) returns (ok: bool)
    requires g.Valid() && McusOk(g.cfg, mcus) && InStep(g, StartState(g.cfg))
    modifies g, g.dcCounts, g.acCounts
    ensures g.Valid()
    ensures ok <==> !ScanTrace(g.cfg, StartState(g.cfg), mcus).bad
    ensures ok ==> Grown(g.Snapshot(), old(g.Snapshot()), ScanTrace(g.cfg, StartState(g.cfg), mcus).ops)
  {
    hide ScanTrace, StateAfter, McuTrace, NextState, BlocksTrace, Grown, ConfigOk;
    ghost var c, s, k0, tr := g.cfg, StartState(g.cfg), g.Snapshot(), Trace([], false);
    GrownNothing(k0);
    ScanStep(c, s, []);
    assert mcus[..0] == [];
    for i := 0 to |mcus|
      invariant g.Valid() && InStep(g, s)
      invariant s == StateAfter(c, StartState(c), mcus[..i])
      invariant tr == ScanTrace(c, StartState(c), mcus[..i]) && !tr.bad
      invariant Grown(g.Snapshot(), k0, tr.ops)
    {
      ghost var k1 := g.Snapshot();
      ghost var seen := ScanState(g.lastDcVal, g.restartsToGo, 0);
      assert mcus[..i + 1] == mcus[..i] + [mcus[i]];
      ScanSnoc(c, StartState(c), mcus[..i], mcus[i]);
      InStepNext(c, seen, s, mcus[i]);
      ok := g.GatherMcu(mcus[i]);
      if !ok {
        PrefixBad(c, mcus, i + 1);
        return;
      }
      ghost var mt := McuTrace(c, s, mcus[i]);
      GrownMcu(c, s, mcus[i], g.Snapshot(), k1);
      GrownThen(g.Snapshot(), k1, k0, tr.ops, mt.ops);
      s := NextState(c, s, mcus[i]);
      tr := Trace(tr.ops + mt.ops, mt.bad);
    }
    assert mcus[..|mcus|] == mcus;
    ok := true;
  }

  // ---- the counts meet the demands of the table generator ----

  /** The symbols that can occur: DC categories up to 11, AC sizes up to 10. */
  ghost predicate SymbolsInRange(ops: seq<Op>) {
    forall i :: 0 <= i < |ops| && ops[i].Huff? ==>
      if ops[i].isDC then ops[i].sym <= 11 else ops[i].sym < 256 && ops[i].sym % 16 <= 10
  }

  lemma {:induction false} AcInRange(block: Block, tbl: nat, k: nat, r: nat)
    requires 1 <= k <= 64
    ensures SymbolsInRange(AcTrace(block, tbl, k, r).ops)
    decreases 64 - k, r
  {
    hide AcTrace, Zigzag, BitLen;
    AcStep(block, tbl, k, r);
    if k < 64 {
      if Zigzag(block, k) == 0 {
        AcInRange(block, tbl, k + 1, r + 1);
      } else if r > 15 {
        AcInRange(block, tbl, k, r - 16);
      } else {
        AcInRange(block, tbl, k + 1, 0);
      }
    }
  }

  lemma {:induction false} BlocksInRange(c: ScanConfig, lastDc: seq<int>, mcu: Mcu, b: nat)
    requires ConfigOk(c) && McuOk(c, mcu) && |lastDc| == c.comps && b <= |mcu|
    ensures SymbolsInRange(BlocksTrace(c, lastDc, mcu, b).ops)
    decreases |mcu| - b
  {
    hide BlocksTrace, LastDcAfter, AcTrace, BitLen;
    if b == |mcu| {
      BlocksEnd(c, lastDc, mcu);
    } else {
      BlocksStep(c, lastDc, mcu, b);
      var ci := c.membership[b];
      BlockInRange(mcu[b], lastDc[ci], c.dcTbl[ci], c.acTbl[ci]);
      BlocksInRange(c, lastDc[ci := mcu[b][0]], mcu, b + 1);
    }
  }

  lemma BlockInRange(block: Block, lastDc: int, dcTbl: nat, acTbl: nat)
    ensures SymbolsInRange(BlockTrace(block, lastDc, dcTbl, acTbl).ops)
  {
    hide AcTrace, BitLen;
    AcInRange(block, acTbl, 1, 0);
  }

  lemma {:induction false} ScanInRange(c: ScanConfig, s: ScanState, mcus: seq<Mcu>)
    requires ConfigOk(c) && StateOk(c, s) && McusOk(c, mcus)
    ensures SymbolsInRange(ScanTrace(c, s, mcus).ops)
    decreases |mcus|
  {
    hide ScanTrace, BlocksTrace, NextState, StateAfter;
    ScanStep(c, s, mcus);
    if mcus != [] {
      BlocksInRange(c, Prediction(c, s), mcus[0], 0);
      ScanInRange(c, NextState(c, s, mcus[0]), mcus[1..]);
    }
  }

  /** Some operation uses the table. */
  ghost predicate UsesTable(ops: seq<Op>, isDC: bool, tbl: nat) {
    exists i :: 0 <= i < |ops| && ops[i].Huff? && ops[i].isDC == isDC && ops[i].tbl == tbl
  }

  lemma UsesTableConcat(a: seq<Op>, b: seq<Op>, isDC: bool, tbl: nat)
    requires UsesTable(a, isDC, tbl) || UsesTable(b, isDC, tbl)
    ensures UsesTable(a + b, isDC, tbl)
  {
    if UsesTable(a, isDC, tbl) {
      var i :| 0 <= i < |a| && a[i].Huff? && a[i].isDC == isDC && a[i].tbl == tbl;
      assert (a + b)[i] == a[i];
    } else {
      var i :| 0 <= i < |b| && b[i].Huff? && b[i].isDC == isDC && b[i].tbl == tbl;
      assert (a + b)[|a| + i] == b[i];
    }
  }

  lemma {:induction false} AcUsed(block: Block, tbl: nat, k: nat, r: nat)
    requires 1 <= k <= 64 && (k < 64 || r > 0) && !AcTrace(block, tbl, k, r).bad
    ensures UsesTable(AcTrace(block, tbl, k, r).ops, false, tbl)
    decreases 64 - k, r
  {
    hide AcTrace, Zigzag, BitLen;
    AcStep(block, tbl, k, r);
    var ops := AcTrace(block, tbl, k, r).ops;
    if k < 64 && Zigzag(block, k) == 0 {
      AcUsed(block, tbl, k + 1, r + 1);
    } else {
      assert ops[0].Huff? && !ops[0].isDC && ops[0].tbl == tbl;
    }
  }

  /** Each block uses its DC table and its AC table. */
  lemma BlockUsed(block: Block, lastDc: int, dcTbl: nat, acTbl: nat)
    requires !BlockTrace(block, lastDc, dcTbl, acTbl).bad
    ensures UsesTable(BlockTrace(block, lastDc, dcTbl, acTbl).ops, true, dcTbl)
    ensures UsesTable(BlockTrace(block, lastDc, dcTbl, acTbl).ops, false, acTbl)
  {
    hide AcTrace, BitLen;
    var dc, ac := DcTrace(block[0] - lastDc, dcTbl), AcTrace(block, acTbl, 1, 0);
    assert dc.ops[0].Huff? && dc.ops[0].isDC && dc.ops[0].tbl == dcTbl;
    AcUsed(block, acTbl, 1, 0);
    UsesTableConcat(dc.ops, ac.ops, true, dcTbl);
    UsesTableConcat(dc.ops, ac.ops, false, acTbl);
  }

  lemma {:induction false} BlocksUsed(c: ScanConfig, lastDc: seq<int>, mcu: Mcu, b: nat, ci: nat)
    requires ConfigOk(c) && McuOk(c, mcu) && |lastDc| == c.comps && b <= |mcu| && ci < c.comps
    requires ci in c.membership[b..]
    requires !BlocksTrace(c, lastDc, mcu, b).bad
    ensures UsesTable(BlocksTrace(c, lastDc, mcu, b).ops, true, c.dcTbl[ci])
    ensures UsesTable(BlocksTrace(c, lastDc, mcu, b).ops, false, c.acTbl[ci])
    decreases |mcu| - b
  {
    hide BlocksTrace, LastDcAfter, BlockTrace, UsesTable;
    BlocksStep(c, lastDc, mcu, b);
    var cb := c.membership[b];
    assert c.membership[b..] == [cb] + c.membership[b + 1..];
    var bt, rest := BlockTrace(mcu[b], lastDc[cb], c.dcTbl[cb], c.acTbl[cb]),
      BlocksTrace(c, lastDc[cb := mcu[b][0]], mcu, b + 1);
    if cb == ci {
      BlockUsed(mcu[b], lastDc[cb], c.dcTbl[cb], c.acTbl[cb]);
    } else {
      BlocksUsed(c, lastDc[cb := mcu[b][0]], mcu, b + 1, ci);
    }
    UsesTableConcat(bt.ops, rest.ops, true, c.dcTbl[ci]);
    UsesTableConcat(bt.ops, rest.ops, false, c.acTbl[ci]);
  }

  /** Every component has blocks in an MCU. */
  ghost predicate AllPresent(c: ScanConfig)
    requires ConfigOk(c)
  {
    forall ci :: 0 <= ci < c.comps ==> ci in c.membership
  }

  lemma ScanUsed(c: ScanConfig, mcus: seq<Mcu>, ci: nat)
    requires ConfigOk(c) && McusOk(c, mcus) && mcus != [] && AllPresent(c) && ci < c.comps
    requires !ScanTrace(c, StartState(c), mcus).bad
    ensures UsesTable(ScanTrace(c, StartState(c), mcus).ops, true, c.dcTbl[ci])
    ensures UsesTable(ScanTrace(c, StartState(c), mcus).ops, false, c.acTbl[ci])
  {
    hide BlocksTrace, LastDcAfter, UsesTable, ScanTrace, NextState;
    var s := StartState(c);
    ScanStep(c, s, mcus);
    var tr, rest := McuTrace(c, s, mcus[0]), ScanTrace(c, NextState(c, s, mcus[0]), mcus[1..]);
    var bl := BlocksTrace(c, Prediction(c, s), mcus[0], 0);
    assert c.membership[0..] == c.membership;
    BlocksUsed(c, Prediction(c, s), mcus[0], 0, ci);
    assert tr == bl;
    UsesTableConcat(bl.ops, rest.ops, true, c.dcTbl[ci]);
    UsesTableConcat(bl.ops, rest.ops, false, c.acTbl[ci]);
  }

  /** The counts of one table are the uses of its symbols. */
  ghost predicate CountsUses(freq: seq<nat>, ops: seq<Op>, isDC: bool, tbl: nat) {
    |freq| == NSYM && forall s :: 0 <= s < NSYM ==> freq[s] == Uses(ops, isDC, tbl, s)
  }

  /** The counts of one table after the statistics pass. */
  ghost function CountsOf(ops: seq<Op>, isDC: bool, tbl: nat): (freq: seq<nat>)
    ensures CountsUses(freq, ops, isDC, tbl)
  {
    seq(NSYM, s requires 0 <= s => Uses(ops, isDC, tbl, s))
  }

  lemma CountsAre(freq: seq<nat>, ops: seq<Op>, isDC: bool, tbl: nat)
    requires CountsUses(freq, ops, isDC, tbl)
    ensures freq == CountsOf(ops, isDC, tbl)
  {}

  lemma {:induction false} UsedAtLeastOne(freq: seq<nat>, k: nat, s: nat)
    requires s < k <= |freq| && freq[s] > 0
    ensures NumUsed(freq, k) >= 1
  {
    if s < k - 1 {
      UsedAtLeastOne(freq, k - 1, s);
    }
  }

  /** Two symbols that never occur leave at most 254. */
  lemma UsedAtMost254(freq: seq<nat>, a: byte, b: byte)
    requires |freq| == NSYM && a != b && freq[a] == 0 && freq[b] == 0
    ensures NumUsed(freq, 256) <= 254
  {
    UsedSymbolsSize(freq, 256);
    var all := AllBytes(256);
    var used := UsedSymbols(freq, 256);
    SubsetSize(used + {a} + {b}, all);
  }

  lemma UnusedSymbol(ops: seq<Op>, isDC: bool, tbl: nat, sym: nat)
    requires SymbolsInRange(ops)
    requires if isDC then sym > 11 else sym >= 256 || sym % 16 > 10
    ensures Uses(ops, isDC, tbl, sym) == 0
  {
    if Uses(ops, isDC, tbl, sym) > 0 {
      var i := Position(ops, Huff(isDC, tbl, sym));
      assert false;
    }
  }

  lemma SomeUse(ops: seq<Op>, isDC: bool, tbl: nat) returns (sym: nat)
    requires SymbolsInRange(ops) && UsesTable(ops, isDC, tbl)
    ensures sym < 256 && Uses(ops, isDC, tbl, sym) > 0
  {
    var i :| 0 <= i < |ops| && ops[i].Huff? && ops[i].isDC == isDC && ops[i].tbl == tbl;
    sym := ops[i].sym;
    assert ops[i] in multiset(ops);
  }

  /** The table generator's demands on the number of symbols. */
  lemma CountsReady(freq: seq<nat>, ops: seq<Op>, isDC: bool, tbl: nat)
    requires CountsUses(freq, ops, isDC, tbl) && SymbolsInRange(ops) && UsesTable(ops, isDC, tbl)
    ensures 1 <= NumUsed(freq, 256) <= 254
    ensures isDC ==> forall s: byte :: freq[s] > 0 ==> s <= 15
  {
    hide SymbolsInRange, UsesTable, Uses, NumUsed;
    var sym := SomeUse(ops, isDC, tbl);
    UsedAtLeastOne(freq, 256, sym);
    UnusedSymbol(ops, isDC, tbl, 12);
    UnusedSymbol(ops, isDC, tbl, 13);
    UsedAtMost254(freq, 12, 13);
    forall s: byte | freq[s] > 0 ensures isDC ==> s <= 15 {
      if isDC && s > 15 {
        UnusedSymbol(ops, isDC, tbl, s);
      }
    }
  }

  /** Counts of one table add up to at most the number of operations. */
  lemma {:induction false} CountsBelow(freq: seq<nat>, ops: seq<Op>, isDC: bool, tbl: nat)
    requires CountsUses(freq, ops, isDC, tbl)
    ensures Sum(freq) <= |ops|
    decreases |ops|
  {
    hide Sum;
    if ops == [] {
      SumZero(freq);
    } else {
      var n := |ops| - 1;
      var ops', op := ops[..n], ops[n];
      assert ops == ops' + [op];
      if op.Huff? && op.isDC == isDC && op.tbl == tbl && op.sym < NSYM {
        forall s | 0 <= s < NSYM
          ensures Uses(ops, isDC, tbl, s) == Uses(ops', isDC, tbl, s) + (if s == op.sym then 1 else 0)
        {}
        var freq' := freq[op.sym := freq[op.sym] - 1];
        CountsBelow(freq', ops', isDC, tbl);
        SumUpdate(freq, op.sym, freq[op.sym] - 1);
      } else {
        forall s | 0 <= s < NSYM ensures Uses(ops, isDC, tbl, s) == Uses(ops', isDC, tbl, s) {}
        CountsBelow(freq, ops', isDC, tbl);
      }
    }
  }

  lemma WithPseudoBelow(freq: seq<nat>, n: nat)
    requires |freq| == NSYM && Sum(freq) <= n
    ensures Sum(WithPseudo(freq)) <= n + 1
  {
    hide Sum;
    SumUpdate(freq, 256, 1);
  }

  // ---- finish_pass_gather ----

  /** A code for these counts is longer than the generator can handle. */
  ghost predicate TooLong(freq: seq<nat>)
    requires |freq| == NSYM
  {
    exists s :: 0 <= s < NSYM && BuiltSizes(freq)[s] > 32
  }

  /** No symbol gets a code at all: each occurs too often to be selected. */
  ghost predicate AllHuge(freq: seq<nat>)
    requires |freq| == NSYM
  {
    forall s: byte :: freq[s] > 0 ==> freq[s] > 1000000000
  }

  /** What the table generated for given counts is: good for them, or unusable if they exceed the limit. */
  ghost predicate MadeFor(slot: Option<HuffTable>, freq: seq<nat>)
    requires |freq| == NSYM
  {
    && slot.Some? && !TooLong(freq) && !AllHuge(freq)
    && WellFormed(slot.value) && Total(slot.value.bits) <= 256
    && (if WithinLimit(freq) then GoodFor(slot, freq) else Unusable(slot.value, freq))
  }

  ghost predicate GoodFor(slot: Option<HuffTable>, freq: seq<nat>)
    requires |freq| == NSYM
  {
    slot.Some? && GoodTable(slot.value, freq, CodeSizes(freq)) && FromSizes(slot.value, CodeSizes(freq))
  }

  /** The counts of a table can be handed to the generator. */
  ghost predicate Ready(freq: seq<nat>)
    requires |freq| == NSYM
  {
    1 <= NumUsed(freq, 256) <= 254
  }

  ghost predicate AllReady(c: ScanConfig, k: Counts)
    requires ConfigOk(c) && CountsOk(k)
  {
    forall ci :: 0 <= ci < c.comps ==> Ready(k.dc[c.dcTbl[ci]]) && Ready(k.ac[c.acTbl[ci]])
  }

  ghost predicate AllMade(c: ScanConfig, k: Counts, slots: HuffSlots, n: nat)
    requires ConfigOk(c) && CountsOk(k) && SlotsOk(slots) && n <= c.comps
  {
    forall ci :: 0 <= ci < n ==>
      MadeFor(slots.dc[c.dcTbl[ci]], k.dc[c.dcTbl[ci]]) && MadeFor(slots.ac[c.acTbl[ci]], k.ac[c.acTbl[ci]])
  }

  /** Tables already generated are those for the counts, the counts of the others are untouched. */
  ghost predicate Settled(a: seq<array<nat>>, slots: seq<Option<HuffTable>>, did: seq<bool>, freqs: seq<seq<nat>>)
    requires |a| == 4 && |slots| == 4 && |did| == 4 && |freqs| == 4 && forall i :: 0 <= i < 4 ==> |freqs[i]| == NSYM
    reads a
  {
    forall i :: 0 <= i < 4 ==> if did[i] then MadeFor(slots[i], freqs[i]) else a[i][..] == freqs[i]
  }

  /** Some component's table needs a code of more than 32 bits. */
  ghost predicate SomeOverflow(c: ScanConfig, k: Counts)
    requires ConfigOk(c) && CountsOk(k)
  {
    exists ci: nat :: ci < c.comps && (TooLong(k.dc[c.dcTbl[ci]]) || TooLong(k.ac[c.acTbl[ci]]))
  }

  /** Some component's table gets no code. */
  ghost predicate SomeHuge(c: ScanConfig, k: Counts)
    requires ConfigOk(c) && CountsOk(k)
  {
    exists ci: nat :: ci < c.comps && (AllHuge(k.dc[c.dcTbl[ci]]) || AllHuge(k.ac[c.acTbl[ci]]))
  }

  /** How generating a table can fail. */
  datatype Failure = LongCode | NoCodes

  ghost predicate FailsWith(e: Failure, freq: seq<nat>)
    requires |freq| == NSYM
  {
    if e == LongCode then TooLong(freq) else AllHuge(freq)
  }

  ghost predicate SomeFails(e: Failure, c: ScanConfig, k: Counts)
    requires ConfigOk(c) && CountsOk(k)
  {
    if e == LongCode then SomeOverflow(c, k) else SomeHuge(c, k)
  }

  /** One table class of finish_pass_gather: generate the table unless that has been done for another component. */
  method FinishTable(a: seq<array<nat>>, slots: seq<Option<HuffTable>>, did: seq<bool>, tbl: nat,
                     ghost freqs: seq<seq<nat>>)
    returns (ok: bool, e: Failure, slots': seq<Option<HuffTable>>, did': seq<bool>)
    requires |a| == 4 && |slots| == 4 && |did| == 4 && |freqs| == 4 && forall i :: 0 <= i < 4 ==> |freqs[i]| == NSYM
    requires forall i :: 0 <= i < 4 ==> a[i].Length == NSYM
    requires forall i, j :: 0 <= i < j < 4 ==> a[i] != a[j]
    requires tbl < 4 && Ready(freqs[tbl]) && Settled(a, slots, did, freqs)
    modifies a[tbl]
    ensures ok ==> |slots'| == 4 && did' == did[tbl := true] && Settled(a, slots', did', freqs)
    ensures ok ==> forall i :: 0 <= i < 4 && i != tbl ==> slots'[i] == slots[i]
    ensures ok <==> !TooLong(freqs[tbl]) && !AllHuge(freqs[tbl])
    ensures !ok ==> FailsWith(e, freqs[tbl])
  {
    hide GoodTable, FromSizes, CodeSizes, BuiltSizes, NumUsed, WithinLimit, WithPseudo, Sum, Unusable;
    if did[tbl] {
      assert did[tbl := true] == did;
      return true, LongCode, slots, did;
    }
    var r := GenOptimalTable(a[tbl]);
    if r.CodeLengthOverflow? {
      return false, LongCode, slots, did;
    }
    if r.NoCode? {
      return false, NoCodes, slots, did;
    }
    MadeIs(r.table, freqs[tbl]);
    return true, LongCode, slots[tbl := Some(r.table)], did[tbl := true];
  }

  lemma MadeIs(t: HuffTable, freq: seq<nat>)
    requires |freq| == NSYM && FromSizes(t, BuiltSizes(freq)) && !TooLong(freq) && !AllHuge(freq)
    requires WithinLimit(freq) ==> GoodTable(t, freq, CodeSizes(freq))
    requires !WithinLimit(freq) ==> WellFormed(t) && Total(t.bits) <= 256 && Unusable(t, freq)
    ensures MadeFor(Some(t), freq)
  {
    hide FromSizes, CodeSizes, BuiltSizes, NumUsed, WithinLimit, Unusable, TooLong, AllHuge, KraftUpTo, Before, Total;
    if WithinLimit(freq) { BuiltWithin(freq); }
  }

  lemma ReadyOf(c: ScanConfig, k: Counts, ci: nat)
    requires ConfigOk(c) && CountsOk(k) && AllReady(c, k) && ci < c.comps
    ensures |c.dcTbl| == |c.acTbl| == c.comps && c.dcTbl[ci] < 4 && c.acTbl[ci] < 4 && Ready(k.dc[c.dcTbl[ci]])
      && Ready(k.ac[c.acTbl[ci]])
  {
    hide Ready;
  }

  /** finish_pass_gather: one table for every slot a component uses, each from its own counts. */
  method FinishGather(g: StatisticsPass, slots0: HuffSlots) returns (ok: bool, e: Failure, slots: HuffSlots)
    requires g.Valid() && SlotsOk(slots0) && AllReady(g.cfg, g.Snapshot())
    modifies g.dcCounts, g.acCounts
    ensures ok ==> SlotsOk(slots) && AllMade(g.cfg, old(g.Snapshot()), slots, g.cfg.comps)
    ensures ok <==> !SomeOverflow(g.cfg, old(g.Snapshot())) && !SomeHuge(g.cfg, old(g.Snapshot()))
    ensures !ok ==> SomeFails(e, g.cfg, old(g.Snapshot()))
  {
    hide Ready, MadeFor, AllReady, TooLong, AllHuge, Settled, ConfigOk, AllMade;
    ghost var k, c := g.Snapshot(), g.cfg;
    var dc, ac := slots0.dc, slots0.ac;
    var didDc, didAc := [false, false, false, false], [false, false, false, false];
    e, slots := LongCode, slots0;
    NothingSettled(g, dc, ac, k);
    assert |c.dcTbl| == |c.acTbl| == c.comps by { ConfigSizes(c); }
    for ci := 0 to g.cfg.comps
      invariant g.Valid() && |dc| == |ac| == |didDc| == |didAc| == 4
      invariant Settled(g.dcCounts, dc, didDc, k.dc) && Settled(g.acCounts, ac, didAc, k.ac)
      invariant forall cj :: 0 <= cj < ci ==>
        c.dcTbl[cj] < 4 && c.acTbl[cj] < 4 && didDc[c.dcTbl[cj]] && didAc[c.acTbl[cj]]
      invariant forall i :: 0 <= i < 4 && !didDc[i] ==> dc[i] == slots0.dc[i]
      invariant forall i :: 0 <= i < 4 && !didAc[i] ==> ac[i] == slots0.ac[i]
    {
      ReadyOf(c, k, ci);
      var dctbl, actbl := g.cfg.dcTbl[ci], g.cfg.acTbl[ci];
      ok, e, dc, didDc := FinishTable(g.dcCounts, dc, didDc, dctbl, k.dc);
      if !ok {
        return;
      }
      ok, e, ac, didAc := FinishTable(g.acCounts, ac, didAc, actbl, k.ac);
      if !ok {
        return;
      }
    }
    ok, slots := true, HuffSlots(dc, ac);
    SettledSlots(g.dcCounts, slots0.dc, dc, didDc, k.dc);
    SettledSlots(g.acCounts, slots0.ac, ac, didAc, k.ac);
    SettledMade(g, k, slots, didDc, didAc);
    MadeNotFailed(c, k, slots);
  }

  lemma MadeNotFailed(c: ScanConfig, k: Counts, slots: HuffSlots)
    requires ConfigOk(c) && CountsOk(k) && SlotsOk(slots) && AllMade(c, k, slots, c.comps)
    ensures !SomeOverflow(c, k) && !SomeHuge(c, k)
  {
    hide GoodFor, TooLong, AllHuge, Unusable, WithinLimit, Total;
    forall ci: nat | ci < c.comps
      ensures !TooLong(k.dc[c.dcTbl[ci]]) && !TooLong(k.ac[c.acTbl[ci]])
      ensures !AllHuge(k.dc[c.dcTbl[ci]]) && !AllHuge(k.ac[c.acTbl[ci]])
    {
      assert MadeFor(slots.dc[c.dcTbl[ci]], k.dc[c.dcTbl[ci]]) && MadeFor(slots.ac[c.acTbl[ci]], k.ac[c.acTbl[ci]]);
    }
  }

  lemma ConfigSizes(c: ScanConfig)
    requires ConfigOk(c)
    ensures |c.dcTbl| == |c.acTbl| == c.comps
  {}

  lemma NothingSettled(g: StatisticsPass, dc: seq<Option<HuffTable>>, ac: seq<Option<HuffTable>>, k: Counts)
    requires g.Valid() && |dc| == |ac| == 4 && k == g.Snapshot()
    ensures Settled(g.dcCounts, dc, [false, false, false, false], k.dc)
      && Settled(g.acCounts, ac, [false, false, false, false], k.ac)
  {
    hide MadeFor;
  }

  lemma SettledSlots(a: seq<array<nat>>, before: seq<Option<HuffTable>>, slots: seq<Option<HuffTable>>, did: seq<bool>,
                     freqs: seq<seq<nat>>)
    requires |a| == |before| == |slots| == |did| == |freqs| == 4 && forall i :: 0 <= i < 4 ==> |freqs[i]| == NSYM
    requires forall i :: 0 <= i < 4 && before[i].Some? ==> WellFormed(before[i].value)
    requires forall i :: 0 <= i < 4 && !did[i] ==> slots[i] == before[i]
    requires Settled(a, slots, did, freqs)
    ensures forall i :: 0 <= i < 4 && slots[i].Some? ==> WellFormed(slots[i].value)
    ensures forall i :: 0 <= i < 4 && did[i] ==> MadeFor(slots[i], freqs[i])
  {
    hide GoodFor, Unusable, TooLong, AllHuge, WithinLimit, Total;
  }

  lemma SettledMade(g: StatisticsPass, k: Counts, slots: HuffSlots, didDc: seq<bool>, didAc: seq<bool>)
    requires g.Valid() && CountsOk(k) && SlotsOk(slots) && |didDc| == |didAc| == 4
    requires forall i :: 0 <= i < 4 && didDc[i] ==> MadeFor(slots.dc[i], k.dc[i])
    requires forall i :: 0 <= i < 4 && didAc[i] ==> MadeFor(slots.ac[i], k.ac[i])
    requires forall cj :: 0 <= cj < g.cfg.comps ==>
      g.cfg.dcTbl[cj] < 4 && g.cfg.acTbl[cj] < 4 && didDc[g.cfg.dcTbl[cj]] && didAc[g.cfg.acTbl[cj]]
    ensures AllMade(g.cfg, k, slots, g.cfg.comps)
  {
    hide MadeFor;
  }
}
