/** Optimised coding in two passes: the tables generated from the statistics are always accepted by the encoding pass,
    which never meets a symbol without a code, unless the counts exceed what the table generator can select from. */
module OptimizedCoding {
  import opened Bits
  import opened Sums
  import opened Symbols
  import opened Emissions
  import opened HuffmanTable
  import opened Scans
  import opened EntropyEncoder
  import opened HuffmanForest
  import opened HuffmanBuilder
  import opened FrequencyLimits
  import opened OptimalTable
  import opened Statistics
  import opened GatherPass
  import opened BlockDecoder
  import opened TwoPass
  import ScanDecoder
  import LengthLimit

  // ---- the encoding pass with generated tables ----

  ghost predicate AllGood(c: ScanConfig, k: Counts, slots: HuffSlots, n: nat)
    requires ConfigOk(c) && CountsOk(k) && SlotsOk(slots) && n <= c.comps
  {
    forall ci :: 0 <= ci < n ==>
      GoodFor(slots.dc[c.dcTbl[ci]], k.dc[c.dcTbl[ci]]) && GoodFor(slots.ac[c.acTbl[ci]], k.ac[c.acTbl[ci]])
  }

  /** The counts of every table in use are the uses of its symbols. */
  ghost predicate AllCounted(c: ScanConfig, k: Counts, ops: seq<Op>)
    requires ConfigOk(c) && CountsOk(k)
  {
    forall ci :: 0 <= ci < c.comps ==>
      CountsUses(k.dc[c.dcTbl[ci]], ops, true, c.dcTbl[ci]) && CountsUses(k.ac[c.acTbl[ci]], ops, false, c.acTbl[ci])
  }

  lemma GatheredCounted(c: ScanConfig, k: Counts, k0: Counts, ops: seq<Op>)
    requires ConfigOk(c) && CountsOk(k) && CountsOk(k0) && ClearedFor(c, k0, c.comps) && Grown(k, k0, ops)
    ensures AllCounted(c, k, ops)
  {
    hide Uses;
    forall ci | 0 <= ci < c.comps
      ensures CountsUses(k.dc[c.dcTbl[ci]], ops, true, c.dcTbl[ci])
        && CountsUses(k.ac[c.acTbl[ci]], ops, false, c.acTbl[ci])
    {
      assert AllZero(k0.dc[c.dcTbl[ci]]) && AllZero(k0.ac[c.acTbl[ci]]);
    }
  }

  /** For every table in use the searches of the generator stay within their limit. */
  ghost predicate ScanWithinLimit(c: ScanConfig, ops: seq<Op>)
    requires ConfigOk(c)
  {
    forall ci :: 0 <= ci < c.comps ==>
      WithinLimit(CountsOf(ops, true, c.dcTbl[ci])) && WithinLimit(CountsOf(ops, false, c.acTbl[ci]))
  }

  /** Fewer symbols of a table than the limit are within it. */
  lemma FewSymbols(ops: seq<Op>, isDC: bool, tbl: nat)
    requires Sum(CountsOf(ops, isDC, tbl)) < 1000000000
    ensures WithinLimit(CountsOf(ops, isDC, tbl))
  {
    hide Sum, WithinLimit, WithPseudo;
    WithPseudoBelow(CountsOf(ops, isDC, tbl), 999999999);
    SmallTotal(CountsOf(ops, isDC, tbl));
  }

  /** The counts of a scan satisfy the demands of the generator. */
  lemma ScanReady(c: ScanConfig, k: Counts, mcus: seq<Mcu>)
    requires ConfigOk(c) && CountsOk(k) && McusOk(c, mcus) && mcus != [] && AllPresent(c)
    requires !ScanTrace(c, StartState(c), mcus).bad
    requires AllCounted(c, k, ScanTrace(c, StartState(c), mcus).ops)
    ensures AllReady(c, k)
  {
    hide ScanTrace, CountsUses, NumUsed, SymbolsInRange, UsesTable, AllPresent, StartState;
    StartOkState(c);
    var ops := ScanTrace(c, StartState(c), mcus).ops;
    ScanInRange(c, StartState(c), mcus);
    forall ci | 0 <= ci < c.comps ensures Ready(k.dc[c.dcTbl[ci]]) && Ready(k.ac[c.acTbl[ci]]) {
      ScanUsed(c, mcus, ci);
      CountsReady(k.dc[c.dcTbl[ci]], ops, true, c.dcTbl[ci]);
      CountsReady(k.ac[c.acTbl[ci]], ops, false, c.acTbl[ci]);
    }
  }

  /** Generated tables are always accepted by the encoding pass. */
  lemma GeneratedUsable(c: ScanConfig, k: Counts, slots: HuffSlots, ops: seq<Op>)
    requires ConfigOk(c) && CountsOk(k) && SlotsOk(slots) && AllGood(c, k, slots, c.comps)
    requires AllCounted(c, k, ops) && SymbolsInRange(ops)
    requires forall ci :: 0 <= ci < c.comps ==> UsesTable(ops, true, c.dcTbl[ci]) && UsesTable(ops, false, c.acTbl[ci])
    ensures AllUsable(c, slots, c.comps)
  {
    hide CountsUses, NumUsed, SymbolsInRange, UsesTable, GoodTable, Acceptable, CodeSizes;
    forall ci | 0 <= ci < c.comps ensures Usable(slots.dc, true, c.dcTbl[ci]) && Usable(slots.ac, false, c.acTbl[ci]) {
      var d, a := c.dcTbl[ci], c.acTbl[ci];
      CountsReady(k.dc[d], ops, true, d);
      CountsReady(k.ac[a], ops, false, a);
      GoodTableAcceptable(slots.dc[d].value, k.dc[d], CodeSizes(k.dc[d]), true);
      GoodTableAcceptable(slots.ac[a].value, k.ac[a], CodeSizes(k.ac[a]), false);
    }
  }

  /** A symbol that was counted has a code in the table generated from the counts. */
  lemma CountedHasCode(d: DerivedTable, t: HuffTable, freq: seq<nat>, ops: seq<Op>, isDC: bool, tbl: nat, sym: nat)
    requires WellFormed(t) && DerivedFrom(d, t) && CountsUses(freq, ops, isDC, tbl) && sym < 256
    requires GoodTable(t, freq, CodeSizes(freq)) && Huff(isDC, tbl, sym) in ops
    ensures d.ehufsi[sym] > 0
  {
    hide CodeSizes, NumUsed, KraftUpTo, Before, FirstIndex, SizeOf, CodeOf;
    assert Uses(ops, isDC, tbl, sym) > 0;
    var s: byte := sym;
    assert s in t.huffval[..Total(t.bits)];
    var p :| 0 <= p < Total(t.bits) && t.huffval[p] == s;
    SizeAtLeastOne(t.bits, p);
  }

  lemma SizeAtLeastOne(bits: seq<byte>, p: nat)
    requires |bits| == 17 && p < Total(bits)
    ensures SizeOf(bits, p) >= 1
  {}

  /** Every Huffman operation belongs to the tables of some component. */
  ghost predicate OfComponents(c: ScanConfig, ops: seq<Op>)
    requires ConfigOk(c)
  {
    forall i :: 0 <= i < |ops| && ops[i].Huff? ==> ops[i].tbl in if ops[i].isDC then c.dcTbl else c.acTbl
  }

  lemma {:induction false} BlocksOfComponents(c: ScanConfig, lastDc: seq<int>, mcu: Mcu, b: nat)
    requires ConfigOk(c) && McuOk(c, mcu) && |lastDc| == c.comps && b <= |mcu|
    ensures OfComponents(c, BlocksTrace(c, lastDc, mcu, b).ops)
    decreases |mcu| - b
  {
    hide BlocksTrace, LastDcAfter, BlockTrace;
    if b == |mcu| {
      BlocksEnd(c, lastDc, mcu);
    } else {
      BlocksStep(c, lastDc, mcu, b);
      var ci := c.membership[b];
      BlockUsesOnly(mcu[b], lastDc[ci], c.dcTbl[ci], c.acTbl[ci]);
      BlocksOfComponents(c, lastDc[ci := mcu[b][0]], mcu, b + 1);
    }
  }

  lemma {:induction false} ScanOfComponents(c: ScanConfig, s: ScanState, mcus: seq<Mcu>)
    requires ConfigOk(c) && StateOk(c, s) && McusOk(c, mcus)
    ensures OfComponents(c, ScanTrace(c, s, mcus).ops)
    decreases |mcus|
  {
    hide ScanTrace, BlocksTrace, NextState, StateAfter;
    ScanStep(c, s, mcus);
    if mcus != [] {
      BlocksOfComponents(c, Prediction(c, s), mcus[0], 0);
      ScanOfComponents(c, NextState(c, s, mcus[0]), mcus[1..]);
    }
  }

  /** Tables generated from the statistics of a scan never leave a symbol of that scan without a code. */
  lemma NeverMissing(c: ScanConfig, k: Counts, slots: HuffSlots, t: Tables, ops: seq<Op>)
    requires ConfigOk(c) && CountsOk(k) && SlotsOk(slots) && AllGood(c, k, slots, c.comps) && AllCounted(c, k, ops)
    requires TablesOk(t) && AllUsable(c, slots, c.comps) && AllDerived(c, slots, t, c.comps)
    requires OpsOk(ops) && OfComponents(c, ops)
    ensures ScanDecoder.Writable(t, ops)
  {
    hide CountsUses, GoodTable, CodeSizes, DerivedFrom, Acceptable;
    forall i | 0 <= i < |ops| ensures OpOk(ops[i]) && HasCode(t, ops[i]) {
      var op := ops[i];
      if op.Huff? {
        if op.isDC {
          var ci :| 0 <= ci < c.comps && c.dcTbl[ci] == op.tbl;
          assert GoodFor(slots.dc[c.dcTbl[ci]], k.dc[c.dcTbl[ci]]);
          CountedHasCode(t.dc[op.tbl], slots.dc[op.tbl].value, k.dc[op.tbl], ops, true, op.tbl, op.sym);
        } else {
          var ci :| 0 <= ci < c.comps && c.acTbl[ci] == op.tbl;
          assert GoodFor(slots.ac[c.acTbl[ci]], k.ac[c.acTbl[ci]]);
          CountedHasCode(t.ac[op.tbl], slots.ac[op.tbl].value, k.ac[op.tbl], ops, false, op.tbl, op.sym);
        }
      }
    }
  }

  // ---- beyond the limit ----

  lemma MadeGood(c: ScanConfig, k: Counts, slots: HuffSlots, ops: seq<Op>)
    requires ConfigOk(c) && CountsOk(k) && SlotsOk(slots) && AllMade(c, k, slots, c.comps) && AllCounted(c, k, ops)
    requires ScanWithinLimit(c, ops)
    ensures AllGood(c, k, slots, c.comps)
  {
    hide GoodFor, CountsUses, CountsOf, WithinLimit, Unusable, TooLong, AllHuge, Total;
    forall ci | 0 <= ci < c.comps
      ensures GoodFor(slots.dc[c.dcTbl[ci]], k.dc[c.dcTbl[ci]]) && GoodFor(slots.ac[c.acTbl[ci]], k.ac[c.acTbl[ci]])
    {
      assert MadeFor(slots.dc[c.dcTbl[ci]], k.dc[c.dcTbl[ci]]) && MadeFor(slots.ac[c.acTbl[ci]], k.ac[c.acTbl[ci]]);
      CountsAre(k.dc[c.dcTbl[ci]], ops, true, c.dcTbl[ci]);
      CountsAre(k.ac[c.acTbl[ci]], ops, false, c.acTbl[ci]);
    }
  }

  /** An unusable table is refused, or lacks a code for a symbol that has been counted. */
  lemma UnusableMissing(t: Tables, d: DerivedTable, h: HuffTable, freq: seq<nat>, ops: seq<Op>, isDC: bool, tbl: nat)
    requires WellFormed(h) && Total(h.bits) <= 256 && DerivedFrom(d, h) && CountsUses(freq, ops, isDC, tbl)
    requires Unusable(h, freq) && Acceptable(h, isDC) && TablesOk(t) && tbl < 4 && Slot(t, isDC, tbl) == d
    ensures !ScanDecoder.Writable(t, ops)
  {
    hide FirstIndex, SizeOf, CodeOf, KraftUpTo, Distinct, TablesOk;
    var s: byte :| freq[s] > 0 && s !in h.huffval[..Total(h.bits)];
    assert Uses(ops, isDC, tbl, s) > 0;
    var i := Position(ops, Huff(isDC, tbl, s));
    assert d.ehufsi[s] == 0;
    assert OpOk(ops[i]) && !HasCode(t, ops[i]);
  }

  /** A scan beyond the limit is never written with the tables made for it. */
  lemma BeyondLimit(c: ScanConfig, k: Counts, slots: HuffSlots, t: Tables, ops: seq<Op>)
    requires ConfigOk(c) && CountsOk(k) && SlotsOk(slots) && AllMade(c, k, slots, c.comps) && AllCounted(c, k, ops)
    requires TablesOk(t) && AllUsable(c, slots, c.comps) && AllDerived(c, slots, t, c.comps)
    requires !ScanWithinLimit(c, ops)
    ensures !ScanDecoder.Writable(t, ops)
  {
    hide GoodFor, CountsOf, Uses, WithinLimit, Unusable, TooLong, AllHuge, Total, DerivedFrom, Acceptable,
      ScanDecoder.Writable;
    var ci: nat :| ci < c.comps
      && (!WithinLimit(CountsOf(ops, true, c.dcTbl[ci])) || !WithinLimit(CountsOf(ops, false, c.acTbl[ci])));
    var d, a := c.dcTbl[ci], c.acTbl[ci];
    assert MadeFor(slots.dc[d], k.dc[d]) && MadeFor(slots.ac[a], k.ac[a]);
    assert Usable(slots.dc, true, d) && Usable(slots.ac, false, a);
    CountsAre(k.dc[d], ops, true, d);
    CountsAre(k.ac[a], ops, false, a);
    if !WithinLimit(k.dc[d]) {
      UnusableMissing(t, t.dc[d], slots.dc[d].value, k.dc[d], ops, true, d);
    } else {
      UnusableMissing(t, t.ac[a], slots.ac[a].value, k.ac[a], ops, false, a);
    }
  }

  // ---- both passes ----

  /** NoSymbolCode: for some table every symbol occurs too often, and the search for its longest code leaves the array.
      Unfinished: the encoding pass refuses a table, meets a symbol without a code, or is not allowed to finish. */
  datatype TwoPassResult = BadCoefficient | TooLongCode | NoSymbolCode | Unfinished | Completed(slots: HuffSlots)

  /** Some table of the scan has a Huffman code of more than 32 bits. */
  ghost predicate ScanTooLong(c: ScanConfig, ops: seq<Op>)
    requires ConfigOk(c)
  {
    exists ci: nat :: ci < c.comps
      && (TooLong(CountsOf(ops, true, c.dcTbl[ci])) || TooLong(CountsOf(ops, false, c.acTbl[ci])))
  }

  /** Some table of the scan gets no code. */
  ghost predicate ScanHuge(c: ScanConfig, ops: seq<Op>)
    requires ConfigOk(c)
  {
    exists ci: nat :: ci < c.comps
      && (AllHuge(CountsOf(ops, true, c.dcTbl[ci])) || AllHuge(CountsOf(ops, false, c.acTbl[ci])))
  }

  lemma FailuresAre(c: ScanConfig, k: Counts, ops: seq<Op>)
    requires ConfigOk(c) && CountsOk(k) && AllCounted(c, k, ops)
    ensures SomeOverflow(c, k) <==> ScanTooLong(c, ops)
    ensures SomeHuge(c, k) <==> ScanHuge(c, ops)
  {
    hide CountsUses, TooLong, AllHuge, CountsOf;
    forall ci: nat | ci < c.comps
      ensures k.dc[c.dcTbl[ci]] == CountsOf(ops, true, c.dcTbl[ci])
        && k.ac[c.acTbl[ci]] == CountsOf(ops, false, c.acTbl[ci])
    {
      CountsAre(k.dc[c.dcTbl[ci]], ops, true, c.dcTbl[ci]);
      CountsAre(k.ac[c.acTbl[ci]], ops, false, c.acTbl[ci]);
    }
  }

  /** An over-long code takes more than nine million symbols. */
  lemma OverflowNeedsData(c: ScanConfig, ops: seq<Op>)
    requires ConfigOk(c) && ScanTooLong(c, ops)
    ensures |ops| >= 9227464
  {
    hide TooLong, CountsOf, Uses;
    var ci: nat :| ci < c.comps
      && (TooLong(CountsOf(ops, true, c.dcTbl[ci])) || TooLong(CountsOf(ops, false, c.acTbl[ci])));
    if TooLong(CountsOf(ops, true, c.dcTbl[ci])) {
      TooLongNeedsData(ops, true, c.dcTbl[ci]);
    } else {
      TooLongNeedsData(ops, false, c.acTbl[ci]);
    }
  }

  lemma TooLongNeedsData(ops: seq<Op>, isDC: bool, tbl: nat)
    requires TooLong(CountsOf(ops, isDC, tbl))
    ensures |ops| >= 9227464
  {
    hide CountsOf, Uses, CodeSizes, BuiltSizes, Sum, WithPseudo, HuffmanLengths, WithinLimit;
    var freq := CountsOf(ops, isDC, tbl);
    CountsBelow(freq, ops, isDC, tbl);
    WithPseudoBelow(freq, |ops|);
    if |ops| < 9227464 {
      SmallTotal(freq);
      BuiltWithin(freq);
      var t := CodeSizesHuffman(freq);
      NoOverflow(WithPseudo(freq), CodeSizes(freq), t);
      WithinHeight(freq, t);
    }
  }

  lemma WithinHeight(freq: seq<nat>, t: Tree)
    requires |freq| == NSYM && HuffmanLengths(WithPseudo(freq), CodeSizes(freq), t) && Height(t) <= LengthLimit.MAX_CLEN
    requires BuiltSizes(freq) == CodeSizes(freq)
    ensures !TooLong(freq)
  {
    hide CodeSizes, BuiltSizes, Height, Sum, Fib;
    ShortTree(WithPseudo(freq), CodeSizes(freq), t);
  }

  /** What the statistics pass and the generated tables guarantee about the encoding pass. */
  lemma TablesServe(c: ScanConfig, k: Counts, slots: HuffSlots, mcus: seq<Mcu>)
    requires ConfigOk(c) && CountsOk(k) && SlotsOk(slots) && McusOk(c, mcus) && mcus != [] && AllPresent(c)
    requires !ScanTrace(c, StartState(c), mcus).bad
    requires AllCounted(c, k, ScanTrace(c, StartState(c), mcus).ops) && AllGood(c, k, slots, c.comps)
    ensures AllUsable(c, slots, c.comps)
    ensures forall t: Tables :: TablesOk(t) && AllDerived(c, slots, t, c.comps) ==>
      ScanDecoder.TraceWritable(t, ScanTrace(c, StartState(c), mcus))
  {
    hide ScanTrace, AllCounted, AllGood, AllDerived, AllUsable, AllPresent, SymbolsInRange, UsesTable, OpsOk,
      OfComponents, StartState, TablesOk, ScanDecoder.Writable;
    StartOkState(c);
    var ops := ScanTrace(c, StartState(c), mcus).ops;
    ScanInRange(c, StartState(c), mcus);
    forall ci | 0 <= ci < c.comps ensures UsesTable(ops, true, c.dcTbl[ci]) && UsesTable(ops, false, c.acTbl[ci]) {
      ScanUsed(c, mcus, ci);
    }
    GeneratedUsable(c, k, slots, ops);
    ScanOpsOk(c, StartState(c), mcus);
    ScanOfComponents(c, StartState(c), mcus);
    forall t: Tables | TablesOk(t) && TableCount(t) && AllDerived(c, slots, t, c.comps)
      ensures ScanDecoder.TraceWritable(t, ScanTrace(c, StartState(c), mcus))
    {
      NeverMissing(c, k, slots, t, ops);
    }
    forall t: Tables | TablesOk(t) ensures TableCount(t) { TableCounts(t); }
  }

  ghost predicate TableCount(t: Tables) { |t.dc| == 4 && |t.ac| == 4 }

  lemma TableCounts(t: Tables)
    requires TablesOk(t)
    ensures TableCount(t)
  {}

  /** Optimised coding of a whole scan: statistics, tables, encoding. For every scan: it fails before the encoding pass
      exactly for an out-of-range coefficient, and exactly for a table with a code of more than 32 bits (impossible
      below nine million symbols) or without any; what it completes decodes to the scan, and it never completes a scan
      beyond the limit of the table generator. Any other scan it completes for a patient application. */
  method OptimizeAndEncode(g: StatisticsPass, enc: HuffEntropyEncoder, slots0: HuffSlots, mcus: seq<Mcu>,
                           script: seq<Action>)
    returns (r: TwoPassResult)
    requires g.Valid() && enc.Valid() && g.cfg == enc.cfg && SlotsOk(slots0)
    requires McusOk(enc.cfg, mcus) && mcus != [] && AllPresent(enc.cfg)
    modifies g, g.dcCounts, g.acCounts, enc, enc.dest, enc.dest.buffer
    ensures r.BadCoefficient? <==> ScanTrace(enc.cfg, StartState(enc.cfg), mcus).bad
    ensures var tr := ScanTrace(enc.cfg, StartState(enc.cfg), mcus);
      && (r.TooLongCode? || r.NoSymbolCode? <==> !tr.bad && (ScanTooLong(enc.cfg, tr.ops) || ScanHuge(enc.cfg, tr.ops)))
      && (r.TooLongCode? ==> ScanTooLong(enc.cfg, tr.ops) && |tr.ops| >= 9227464)
      && (r.NoSymbolCode? ==> ScanHuge(enc.cfg, tr.ops))
      && (r.Completed? ==> ScanWithinLimit(enc.cfg, tr.ops))
      && (r.Unfinished? ==>
           !ScanWithinLimit(enc.cfg, tr.ops) || !Patient(script, |mcus|, enc.dest.suspending, enc.dest.buffer.Length))
    ensures r.Completed? ==> SlotsOk(r.slots) && CodeTablesOk(SentTables(r.slots)) && enc.Valid()
    ensures r.Completed? ==> old(enc.dest.Committed()) <= enc.dest.Committed()
    ensures r.Completed? ==>
      ScanDecoder.DecodeScan(enc.cfg, SentTables(r.slots), enc.dest.Committed()[|old(enc.dest.Committed())|..], |mcus|)
        == Some(mcus)
  {
    hide ScanTrace, AllCounted, AllGood, AllMade, AllDerived, AllUsable, AllPresent, StartState, SentTables,
      ScanDecoder.DecodeScan, ScanDecoder.TraceWritable, Grown, ClearedFor, AllReady, SomeOverflow, SomeHuge, TablesOk,
      McusOk, ScanWithinLimit, ScanTooLong, ScanHuge, Unhindered, LeavesRoom, Patient;
    StartOkState(g.cfg);
    g.StartGather();
    assert InStep(g, StartState(g.cfg));
    ghost var k0 := g.Snapshot();
    var ok := GatherScan(g, mcus);
    if !ok {
      return BadCoefficient;
    }
    ghost var c, k := g.cfg, g.Snapshot();
    ghost var ops := ScanTrace(c, StartState(c), mcus).ops;
    GatheredCounted(c, k, k0, ops);
    ScanReady(c, k, mcus);
    var slots, e;
    ok, e, slots := FinishGather(g, slots0);
    FailuresAre(c, k, ops);
    if !ok {
      if e == LongCode {
        OverflowNeedsData(c, ops);
        return TooLongCode;
      }
      return NoSymbolCode;
    }
    var completed := CompressScan(enc, slots, mcus, script);
    EncodedIs(c, k, slots, mcus, enc.tables, script, completed, enc.dest.suspending, enc.dest.buffer.Length);
    r := if completed then Completed(slots) else Unfinished;
  }

  /** How the encoding pass can end. */
  lemma EncodedIs(c: ScanConfig, k: Counts, slots: HuffSlots, mcus: seq<Mcu>, t: Tables, script: seq<Action>,
                  completed: bool, suspending: bool, size: nat)
    requires ConfigOk(c) && CountsOk(k) && SlotsOk(slots) && McusOk(c, mcus) && mcus != [] && AllPresent(c)
    requires !ScanTrace(c, StartState(c), mcus).bad && TablesOk(t) && AllMade(c, k, slots, c.comps)
    requires AllCounted(c, k, ScanTrace(c, StartState(c), mcus).ops)
    requires completed ==> AllUsable(c, slots, c.comps)
    requires AllUsable(c, slots, c.comps) ==> AllDerived(c, slots, t, c.comps)
    requires completed ==> ScanDecoder.TraceWritable(t, ScanTrace(c, StartState(c), mcus))
    requires (AllUsable(c, slots, c.comps) && Unhindered(c, t, mcus, script, suspending, size)
              && LeavesRoom(script, suspending, size)
              && ScanDecoder.TraceWritable(t, ScanTrace(c, StartState(c), mcus))) ==> completed
    ensures completed ==> ScanWithinLimit(c, ScanTrace(c, StartState(c), mcus).ops)
    ensures ScanWithinLimit(c, ScanTrace(c, StartState(c), mcus).ops) && Patient(script, |mcus|, suspending, size) ==>
      completed
  {
    hide ScanTrace, AllCounted, AllGood, AllMade, AllDerived, AllUsable, AllPresent, StartState, TablesOk, McusOk,
      ScanWithinLimit, Unhindered, LeavesRoom, Patient, ScanDecoder.Writable, CountsOk, SlotsOk, ConfigOk;
    StartOkState(c);
    var ops := ScanTrace(c, StartState(c), mcus).ops;
    if ScanWithinLimit(c, ops) {
      MadeGood(c, k, slots, ops);
      TablesServe(c, k, slots, mcus);
      if Patient(script, |mcus|, suspending, size) { PatientUnhindered(c, t, mcus, script, suspending, size); }
    } else if completed {
      BeyondLimit(c, k, slots, t, ops);
    }
  }
}
