/** The Huffman entropy encoder object (jchuff.c): start of pass, one MCU at a time with suspension, end of pass. */
module EntropyEncoder {
  import opened Bits
  import opened HuffmanTable
  import opened DerivedTables
  import opened Symbols
  import opened Emissions
  import opened BitPacker
  import opened BlockEncoder
  import opened McuEncoder
  import opened BlockDecoder
  import opened Scans
  import opened McuSizes
  import ScanDecoder

  /** The table slots of the compression object. */
  datatype HuffSlots = HuffSlots(dc: seq<Option<HuffTable>>, ac: seq<Option<HuffTable>>)

  ghost predicate SlotsOk(h: HuffSlots) {
    && |h.dc| == NUM_HUFF_TBLS && |h.ac| == NUM_HUFF_TBLS
    && (forall i :: 0 <= i < 4 && h.dc[i].Some? ==> WellFormed(h.dc[i].value))
    && (forall i :: 0 <= i < 4 && h.ac[i].Some? ==> WellFormed(h.ac[i].value))
  }

  /** The table a component needs is there and acceptable. */
  ghost predicate Usable(slots: seq<Option<HuffTable>>, isDC: bool, tbl: nat)
    requires |slots| == 4 && tbl < 4 && (slots[tbl].Some? ==> WellFormed(slots[tbl].value))
  {
    slots[tbl].Some? && Acceptable(slots[tbl].value, isDC)
  }

  ghost predicate AllUsable(c: ScanConfig, h: HuffSlots, n: nat)
    requires ConfigOk(c) && SlotsOk(h) && n <= c.comps
  {
    forall ci :: 0 <= ci < n ==> Usable(h.dc, true, c.dcTbl[ci]) && Usable(h.ac, false, c.acTbl[ci])
  }

  /** The derived tables of the first n components match the slots they came from. */
  ghost predicate AllDerived(c: ScanConfig, h: HuffSlots, t: Tables, n: nat)
    requires ConfigOk(c) && SlotsOk(h) && n <= c.comps && AllUsable(c, h, n)
    requires |t.dc| == 4 && |t.ac| == 4
  {
    forall ci :: 0 <= ci < n ==>
      DerivedFrom(t.dc[c.dcTbl[ci]], h.dc[c.dcTbl[ci]].value) && DerivedFrom(t.ac[c.acTbl[ci]], h.ac[c.acTbl[ci]].value)
  }

  lemma DerivedOk(d: DerivedTable, t: HuffTable)
    requires WellFormed(t) && DerivedFrom(d, t)
    ensures TableOk(d)
  {
    hide FirstIndex, FirstCode, SizeOf, CodeOf;
    forall s | 0 <= s < 256 ensures d.ehufsi[s] <= 16 {
      if d.ehufsi[s] != 0 {
        var p :| 0 <= p < Total(t.bits) && t.huffval[p] == s;
        assert SizeOf(t.bits, p) <= 16;
      }
    }
  }

  const NO_TABLE := DerivedTable(seq(256, i => 0), seq(256, i => 0))

  class HuffEntropyEncoder {
    const cfg: ScanConfig
    const dest: Destination
    var tables: Tables
    var putBuffer: nat
    var putBits: nat
    var lastDcVal: seq<int>
    var restartsToGo: nat
    var nextRestartNum: nat

    ghost predicate Valid()
      reads this, dest
    {
      && ConfigOk(cfg) && TablesOk(tables) && dest.Valid()
      && putBits <= 7 && Holds(putBuffer, Held(putBuffer, putBits))
      && StateOk(cfg, State())
    }

    ghost function State(): ScanState
      reads this
    {
      ScanState(lastDcVal, restartsToGo, nextRestartNum)
    }

    ghost function Pending(): (bits: seq<bool>)
      requires putBits <= 24
      reads this
    {
      Held(putBuffer, putBits)
    }

    constructor (cfg: ScanConfig, dest: Destination)
      requires ConfigOk(cfg) && dest.Valid()
      ensures Valid() && this.cfg == cfg && this.dest == dest
    {
      this.cfg, this.dest := cfg, dest;
      tables := Tables([NO_TABLE, NO_TABLE, NO_TABLE, NO_TABLE], [NO_TABLE, NO_TABLE, NO_TABLE, NO_TABLE]);
      putBuffer, putBits, lastDcVal, restartsToGo, nextRestartNum := 0, 0, NoPrediction(cfg.comps), 0, 0;
      new;
      ZeroHeld();
    }

    /** start_pass_huff without statistics: builds the derived tables of every component and resets the state.
        Succeeds exactly when every table needed is present and acceptable. */
    method StartPass(slots: HuffSlots) returns (ok: bool)
      requires Valid() && SlotsOk(slots)
      modifies this
      ensures Valid()
      ensures ok <==> AllUsable(cfg, slots, cfg.comps)
      ensures ok ==> AllDerived(cfg, slots, tables, cfg.comps) && State() == StartState(cfg) && Pending() == []
      ensures ok ==> |lastDcVal| == cfg.comps && forall ci :: 0 <= ci < cfg.comps ==> lastDcVal[ci] == 0
      ensures ok ==> restartsToGo == cfg.restartInterval && nextRestartNum == 0
    {
      hide DerivedFrom, Acceptable, Held, Holds, TableOk;
      var t := tables;
      for ci := 0 to cfg.comps
        invariant TablesOk(t) && AllUsable(cfg, slots, ci) && AllDerived(cfg, slots, t, ci)
        invariant unchanged(this)
      {
        var dctbl, actbl := cfg.dcTbl[ci], cfg.acTbl[ci];
        var r := MakeDerivedTable(slots.dc, true, dctbl);
        if r.Rejected? {
          assert !Usable(slots.dc, true, dctbl);
          return false;
        }
        DerivedOk(r.table, slots.dc[dctbl].value);
        t := t.(dc := t.dc[dctbl := r.table]);
        r := MakeDerivedTable(slots.ac, false, actbl);
        if r.Rejected? {
          assert !Usable(slots.ac, false, actbl);
          return false;
        }
        DerivedOk(r.table, slots.ac[actbl].value);
        t := t.(ac := t.ac[actbl := r.table]);
      }
      tables := t;
      lastDcVal := NoPrediction(cfg.comps);
      putBuffer, putBits := 0, 0;
      restartsToGo, nextRestartNum := cfg.restartInterval, 0;
      ZeroHeld();
      ok := true;
    }

    /** encode_mcu_huff. The outcome and the bytes are those of the MCU's trace; only a completed MCU changes
        permanent state, and a suspending destination is left exactly as it was otherwise. */
    method EncodeMcu(mcu: Mcu) returns (r: Outcome)
      requires Valid() && McuOk(cfg, mcu)
      modifies this`putBuffer, this`putBits, this`lastDcVal, this`restartsToGo, this`nextRestartNum, dest, dest.buffer
      ensures OpsOk(McuTrace(cfg, old(State()), mcu).ops)
      ensures var tr := McuTrace(cfg, old(State()), mcu);
        var e := Run(tables, Emission([], old(Pending()), false), tr.ops);
        && r == Ending(e, tr.bad, dest.suspending, old(dest.free))
        && (r == Done ==> Valid() && dest.Committed() == old(dest.Committed()) + e.bytes && Pending() == e.pending)
        && (r == Done && dest.suspending ==> dest.free == old(dest.free) - |e.bytes|)
      ensures r == Done ==> State() == NextState(cfg, old(State()), mcu)
      ensures r != Done ==> unchanged(this)
      ensures r != Done && dest.suspending ==> unchanged(dest) && dest.Committed() == old(dest.Committed())
    {
      hide Held, Holds, Run, Step, OpsOk, BlocksTrace, LastDcAfter, TablesOk, McuTrace, NoPrediction;
      ghost var free0, e0 := dest.free, Emission([], Pending(), false);
      McuOpsOk(cfg, State(), mcu);
      var s := new WorkingState(dest, putBuffer, putBits, lastDcVal);
      assert At(s, e0, dest.Committed(), free0);
      r := WriteMcu(s, mcu, cfg, tables, restartsToGo, nextRestartNum, e0, dest.Committed(), free0);
      if r != Done {
        return;
      }
      dest.next, dest.free := s.next, s.free;
      putBuffer, putBits, lastDcVal := s.putBuffer, s.putBits, s.lastDcVal;
      AdvanceRestart();
    }

    /** Restart-interval bookkeeping of a completed MCU. */
    method AdvanceRestart()
      modifies this`restartsToGo, this`nextRestartNum
      ensures cfg.restartInterval == 0 ==> restartsToGo == old(restartsToGo) && nextRestartNum == old(nextRestartNum)
      ensures cfg.restartInterval > 0 && old(restartsToGo) == 0 ==>
        restartsToGo == cfg.restartInterval - 1 && nextRestartNum == (old(nextRestartNum) + 1) % 8
      ensures cfg.restartInterval > 0 && old(restartsToGo) > 0 ==>
        restartsToGo == old(restartsToGo) - 1 && nextRestartNum == old(nextRestartNum)
    {
      if cfg.restartInterval != 0 {
        if restartsToGo == 0 {
          restartsToGo := cfg.restartInterval;
          nextRestartNum := (nextRestartNum + 1) % 8;
        }
        restartsToGo := restartsToGo - 1;
      }
    }

    /** finish_pass_huff: flushes the last bits; suspension is not possible any more and becomes an error. */
    method FinishPass() returns (r: Outcome)
      requires Valid()
      modifies this`putBuffer, this`putBits, dest, dest.buffer
      ensures r == Done <==> !(dest.suspending && |Flush(old(Pending()))| >= old(dest.free))
      ensures r == Done || r == Failed(CantSuspend)
      ensures r == Done ==>
        Valid() && dest.Committed() == old(dest.Committed()) + Flush(old(Pending())) && Pending() == []
      ensures State() == old(State())
      ensures r != Done ==> unchanged(this) && unchanged(dest) && dest.Committed() == old(dest.Committed())
    {
      hide Held, Holds, Stuff, FullBytes, Ones, TablesOk, ConfigOk;
      var s := new WorkingState(dest, putBuffer, putBits, lastDcVal);
      r := s.FlushBits();
      if r == Suspended {
        return Failed(CantSuspend);
      }
      dest.next, dest.free := s.next, s.free;
      putBuffer, putBits := s.putBuffer, s.putBits;
    }
  }

  // ---- whole scans, under any pattern of suspensions ----

  /** What an application does while compressing: offer the next MCU again, or make room in the destination. */
  datatype Action = Offer | MakeRoom

  /** The emission of the first n MCUs into one unlimited buffer. */
  ghost function Reference(c: ScanConfig, t: Tables, mcus: seq<Mcu>): Emission
    requires ConfigOk(c) && TablesOk(t) && McusOk(c, mcus)
  {
    ScanOpsOk(c, StartState(c), mcus);
    Run(t, Emission([], [], false), ScanTrace(c, StartState(c), mcus).ops)
  }

  /** The bytes of a whole scan. */
  ghost function ScanBytes(c: ScanConfig, t: Tables, mcus: seq<Mcu>): seq<byte>
    requires ConfigOk(c) && TablesOk(t) && McusOk(c, mcus)
  {
    var r := Reference(c, t, mcus);
    r.bytes + Flush(r.pending)
  }

  /** One more MCU in the reference emission. */
  lemma ReferenceSnoc(c: ScanConfig, t: Tables, mcus: seq<Mcu>, mcu: Mcu)
    requires ConfigOk(c) && TablesOk(t) && McusOk(c, mcus) && McuOk(c, mcu)
    requires !ScanTrace(c, StartState(c), mcus).bad && !Reference(c, t, mcus).missing
    ensures McusOk(c, mcus + [mcu])
    ensures var s, r := StateAfter(c, StartState(c), mcus), Reference(c, t, mcus);
      var tr := McuTrace(c, s, mcu);
      && OpsOk(tr.ops)
      && var e := Run(t, Emission([], r.pending, false), tr.ops);
      && Reference(c, t, mcus + [mcu]) == Emission(r.bytes + e.bytes, e.pending, e.missing)
      && ScanTrace(c, StartState(c), mcus + [mcu]).bad == tr.bad
      && StateAfter(c, StartState(c), mcus + [mcu]) == NextState(c, s, mcu)
  {
    hide ScanTrace, StateAfter, McuTrace, NextState, Run, OpsOk, McusOk, McuOk;
    var s, r := StateAfter(c, StartState(c), mcus), Reference(c, t, mcus);
    var before, tr := ScanTrace(c, StartState(c), mcus), McuTrace(c, s, mcu);
    ScanSnoc(c, StartState(c), mcus, mcu);
    ScanOpsOk(c, StartState(c), mcus);
    McuOpsOk(c, s, mcu);
    RunConcat(t, Emission([], [], false), before.ops, tr.ops);
    RunShift(t, Emission([], r.pending, false), tr.ops, r.bytes);
    assert r.bytes + [] == r.bytes;
  }

  lemma ReferenceStart(c: ScanConfig, t: Tables)
    requires ConfigOk(c) && TablesOk(t)
    ensures McusOk(c, []) && Reference(c, t, []) == Emission([], [], false)
    ensures ScanTrace(c, StartState(c), []) == Trace([], false) && StateAfter(c, StartState(c), []) == StartState(c)
  {
    hide Run;
    ScanStep(c, StartState(c), []);
    RunNil(t, Emission([], [], false));
  }

  /** The encoder has committed exactly the first done MCUs, as into one unlimited buffer after start. */
  ghost predicate Progress(enc: HuffEntropyEncoder, mcus: seq<Mcu>, start: seq<byte>)
    reads enc, enc.dest, enc.dest.buffer
  {
    && enc.Valid() && McusOk(enc.cfg, mcus)
    && !ScanTrace(enc.cfg, StartState(enc.cfg), mcus).bad
    && var r := Reference(enc.cfg, enc.tables, mcus);
    && !r.missing
    && enc.dest.Committed() == start + r.bytes
    && enc.Pending() == r.pending
    && enc.State() == StateAfter(enc.cfg, StartState(enc.cfg), mcus)
  }

  /** Offering one MCU: committed as in the reference, or nothing has changed, or the reference fails as well. */
  method OfferMcu(enc: HuffEntropyEncoder, ghost before: seq<Mcu>, mcu: Mcu, ghost start: seq<byte>)
    returns (r: Outcome)
    requires Progress(enc, before, start) && McuOk(enc.cfg, mcu)
    modifies enc`putBuffer, enc`putBits, enc`lastDcVal, enc`restartsToGo, enc`nextRestartNum, enc.dest, enc.dest.buffer
    ensures McusOk(enc.cfg, before + [mcu])
    ensures r == Done ==> Progress(enc, before + [mcu], start)
    ensures r == Suspended ==> Progress(enc, before, start)
    ensures r.Failed? ==> NotWritable(enc.cfg, enc.tables, before + [mcu])
    ensures r == Suspended ==>
      && enc.dest.suspending
      && |Reference(enc.cfg, enc.tables, before + [mcu]).bytes|
         >= |Reference(enc.cfg, enc.tables, before).bytes| + old(enc.dest.free)
  {
    hide ScanTrace, StateAfter, McuTrace, NextState, Run, OpsOk, McusOk, McuOk, Held, Holds, Reference, ConfigOk,
      TablesOk;
    ReferenceSnoc(enc.cfg, enc.tables, before, mcu);
    ghost var base := Reference(enc.cfg, enc.tables, before);
    r := enc.EncodeMcu(mcu);
    if r == Done {
      ghost var e := Run(enc.tables, Emission([], base.pending, false), McuTrace(enc.cfg, old(enc.State()), mcu).ops);
      assert start + base.bytes + e.bytes == start + (base.bytes + e.bytes);
    }
  }

  ghost function Offers(script: seq<Action>): nat {
    if script == [] then 0 else (if script[0] == Offer then 1 else 0) + Offers(script[1..])
  }

  /** Room is made before every offer. */
  ghost predicate Generous(script: seq<Action>) {
    forall i :: 0 <= i < |script| && script[i] == Offer ==> i > 0 && script[i - 1] == MakeRoom
  }

  /** A buffer of this size is longer than MCU k. */
  ghost predicate RoomFor(c: ScanConfig, t: Tables, mcus: seq<Mcu>, size: nat, k: nat)
    requires ConfigOk(c) && TablesOk(t) && McusOk(c, mcus) && k < |mcus|
  {
    var before, after := mcus[..k], mcus[..k + 1];
    && McusOk(c, before) && McusOk(c, after)
    && (!NotWritable(c, t, before) ==> |Reference(c, t, after).bytes| < |Reference(c, t, before).bytes| + size)
  }

  /** And than every other. */
  ghost predicate Roomy(c: ScanConfig, t: Tables, mcus: seq<Mcu>, size: nat)
    requires ConfigOk(c) && TablesOk(t) && McusOk(c, mcus)
  {
    forall k: nat :: k < |mcus| ==> RoomFor(c, t, mcus, size, k)
  }

  /** A buffer of more than 5124 bytes always is. */
  lemma RoomyAlways(c: ScanConfig, t: Tables, mcus: seq<Mcu>, size: nat)
    requires ConfigOk(c) && TablesOk(t) && McusOk(c, mcus) && size > 5124
    ensures Roomy(c, t, mcus, size)
  {
    hide ScanTrace, StateAfter, McuTrace, McuOk, Run, OpsOk, ConfigOk, TablesOk, Reference;
    forall k: nat | k < |mcus|
      ensures RoomFor(c, t, mcus, size, k)
    {
      var before := mcus[..k];
      assert mcus[..k + 1] == before + [mcus[k]];
      if !NotWritable(c, t, before) {
        ReferenceSnoc(c, t, before, mcus[k]);
        PendingShort(c, t, before);
        McuSize(c, StateAfter(c, StartState(c), before), mcus[k], t, Reference(c, t, before).pending);
      }
    }
  }

  lemma PendingShort(c: ScanConfig, t: Tables, mcus: seq<Mcu>)
    requires ConfigOk(c) && TablesOk(t) && McusOk(c, mcus)
    ensures |Reference(c, t, mcus).pending| < 8
  {
    hide ScanTrace, Run, OpsOk, ConfigOk, TablesOk;
    ScanOpsOk(c, StartState(c), mcus);
    RunExtends(t, Emission([], [], false), ScanTrace(c, StartState(c), mcus).ops);
  }

  /** The destination takes everything, or room is made before every offer in a buffer longer than every MCU. */
  ghost predicate Unhindered(c: ScanConfig, t: Tables, mcus: seq<Mcu>, script: seq<Action>, suspending: bool, size: nat)
    requires ConfigOk(c) && TablesOk(t) && McusOk(c, mcus)
  {
    Offers(script) >= |mcus| && (suspending ==> Generous(script) && Roomy(c, t, mcus, size))
  }

  /** The reference emission of these MCUs stops in an error. */
  ghost predicate NotWritable(c: ScanConfig, t: Tables, mcus: seq<Mcu>)
    requires ConfigOk(c) && TablesOk(t) && McusOk(c, mcus)
  {
    Reference(c, t, mcus).missing || ScanTrace(c, StartState(c), mcus).bad
  }

  lemma {:induction false} WritableRuns(t: Tables, e: Emission, ops: seq<Op>)
    requires TablesOk(t) && ScanDecoder.Writable(t, ops) && !e.missing
    ensures OpsOk(ops) && !Run(t, e, ops).missing
  {
    hide OpBits, Stuff, FullBytes, Leftover, Run, HasCode, Marker;
    if ops == [] {
      RunNil(t, e);
    } else {
      var ops', op := ops[..|ops| - 1], ops[|ops| - 1];
      assert ops == ops' + [op];
      WritableRuns(t, e, ops');
      RunSnoc(t, e, ops', op);
    }
  }

  /** An error among the first n MCUs is an error of the whole scan. */
  lemma {:induction false} PrefixNotWritable(c: ScanConfig, t: Tables, mcus: seq<Mcu>, n: nat)
    requires ConfigOk(c) && TablesOk(t) && McusOk(c, mcus) && n <= |mcus| && McusOk(c, mcus[..n])
    requires NotWritable(c, t, mcus[..n])
    ensures !ScanDecoder.TraceWritable(t, ScanTrace(c, StartState(c), mcus))
    decreases |mcus|
  {
    hide ScanTrace, StateAfter, McuTrace, NextState, Run, McuOk, OpsOk, ConfigOk, TablesOk, ScanDecoder.Writable;
    if n == |mcus| {
      assert mcus[..n] == mcus;
      if ScanDecoder.TraceWritable(t, ScanTrace(c, StartState(c), mcus)) {
        WritableRuns(t, Emission([], [], false), ScanTrace(c, StartState(c), mcus).ops);
      }
    } else {
      var before, last := mcus[..|mcus| - 1], mcus[|mcus| - 1];
      assert mcus == before + [last] && before[..n] == mcus[..n];
      PrefixNotWritable(c, t, before, n);
      ScanSnoc(c, StartState(c), before, last);
      ScanDecoder.ThenWritable(t, ScanTrace(c, StartState(c), before),
        McuTrace(c, StateAfter(c, StartState(c), before), last));
    }
  }

  /** Any pattern of offers, suspensions and retries commits the same bytes as one unlimited buffer:
      what is committed depends only on how many MCUs have been accepted. */
  method EncodeMcus(enc: HuffEntropyEncoder, mcus: seq<Mcu>, script: seq<Action>) returns (r: Outcome, done: nat)
    requires enc.Valid() && enc.State() == StartState(enc.cfg) && enc.Pending() == [] && McusOk(enc.cfg, mcus)
    modifies enc`putBuffer, enc`putBits, enc`lastDcVal, enc`restartsToGo, enc`nextRestartNum, enc.dest, enc.dest.buffer
    ensures done <= |mcus| && r != Suspended
    ensures r == Done ==> Progress(enc, mcus[..done], old(enc.dest.Committed()))
    ensures r.Failed? ==>
      && done < |mcus| && McusOk(enc.cfg, mcus[..done + 1])
      && NotWritable(enc.cfg, enc.tables, mcus[..done + 1])
    ensures r == Done && Unhindered(enc.cfg, enc.tables, mcus, script, enc.dest.suspending, enc.dest.buffer.Length) ==>
      done == |mcus|
    ensures r == Done && script != [] && script[|script| - 1] == MakeRoom ==> enc.dest.free == enc.dest.buffer.Length
  {
    hide ScanTrace, StateAfter, McuTrace, NextState, Run, OpsOk, Held, Holds, Reference, ConfigOk, TablesOk,
      NotWritable;
    ghost var start := enc.dest.Committed();
    done := 0;
    ReferenceStart(enc.cfg, enc.tables);
    assert start + [] == start && mcus[..0] == [];
    for i := 0 to |script|
      invariant done <= |mcus| && Progress(enc, mcus[..done], start) && enc.tables == old(enc.tables)
      invariant i > 0 && script[i - 1] == MakeRoom ==> enc.dest.free == enc.dest.buffer.Length
      invariant Unhindered(enc.cfg, enc.tables, mcus, script, enc.dest.suspending, enc.dest.buffer.Length) ==>
        done + Offers(script[i..]) >= Offers(script) || done == |mcus|
    {
      match script[i]
      case MakeRoom =>
        enc.dest.Drain();
      case Offer =>
        if done < |mcus| {
          assert mcus[..done] + [mcus[done]] == mcus[..done + 1];
          ghost var free := enc.dest.free;
          ProgressWritable(enc, mcus[..done], start);
          r := OfferMcu(enc, mcus[..done], mcus[done], start);
          if r.Failed? {
            return;
          }
          if r == Done {
            done := done + 1;
          } else {
            Hindered(enc.cfg, enc.tables, mcus, script, enc.dest.buffer.Length, i, done, free);
          }
        }
    }
    r := Done;
  }

  /** A suspension with an empty buffer means that the MCU is longer than the buffer. */
  lemma Hindered(c: ScanConfig, t: Tables, mcus: seq<Mcu>, script: seq<Action>, size: nat, i: nat, done: nat, free: nat)
    requires ConfigOk(c) && TablesOk(t) && McusOk(c, mcus) && done < |mcus| && McusOk(c, mcus[..done])
    requires McusOk(c, mcus[..done + 1]) && !NotWritable(c, t, mcus[..done]) && i < |script| && script[i] == Offer
    requires |Reference(c, t, mcus[..done + 1]).bytes| >= |Reference(c, t, mcus[..done]).bytes| + free
    requires i > 0 && script[i - 1] == MakeRoom ==> free == size
    ensures !Unhindered(c, t, mcus, script, true, size)
  {
    hide Reference, NotWritable, ConfigOk, TablesOk;
    if free == size { assert !RoomFor(c, t, mcus, size, done); }
  }

  lemma {:induction false} RunWritable(t: Tables, e: Emission, ops: seq<Op>)
    requires TablesOk(t) && OpsOk(ops) && !Run(t, e, ops).missing
    ensures ScanDecoder.Writable(t, ops)
  {
    hide OpBits, Stuff, FullBytes, Leftover, Run, HasCode, Marker;
    if ops != [] {
      var ops', op := ops[..|ops| - 1], ops[|ops| - 1];
      assert ops == ops' + [op];
      RunSnoc(t, e, ops', op);
      RunWritable(t, e, ops');
    }
  }

  function EmptyTable(): (t: HuffTable)
    ensures WellFormed(t)
  {
    HuffTable(seq(17, i => 0), seq(256, i => 0))
  }

  function TableOr(slot: Option<HuffTable>): HuffTable {
    match slot
    case Some(t) => t
    case None => EmptyTable()
  }

  /** The tables a decoder receives: those in the slots. */
  function SentTables(slots: HuffSlots): CodeTables
    requires |slots.dc| == 4 && |slots.ac| == 4
  {
    CodeTables([TableOr(slots.dc[0]), TableOr(slots.dc[1]), TableOr(slots.dc[2]), TableOr(slots.dc[3])],
               [TableOr(slots.ac[0]), TableOr(slots.ac[1]), TableOr(slots.ac[2]), TableOr(slots.ac[3])])
  }

  lemma SentTablesOk(slots: HuffSlots)
    requires SlotsOk(slots)
    ensures CodeTablesOk(SentTables(slots))
  {}

  lemma DerivedMatch(c: ScanConfig, slots: HuffSlots, t: Tables)
    requires ConfigOk(c) && SlotsOk(slots) && TablesOk(t)
    requires AllUsable(c, slots, c.comps) && AllDerived(c, slots, t, c.comps)
    ensures CodeTablesOk(SentTables(slots)) && ScanDecoder.TablesMatch(c, t, SentTables(slots))
  {
    hide DerivedFrom, Acceptable, TableOk;
    SentTablesOk(slots);
    forall i | 0 <= i < 4
      ensures SentTables(slots).dc[i] == TableOr(slots.dc[i]) && SentTables(slots).ac[i] == TableOr(slots.ac[i])
    {}
    forall ci | 0 <= ci < c.comps
      ensures SlotMatches(t, SentTables(slots), true, c.dcTbl[ci])
        && SlotMatches(t, SentTables(slots), false, c.acTbl[ci])
    {
      assert Usable(slots.dc, true, c.dcTbl[ci]) && Usable(slots.ac, false, c.acTbl[ci]);
    }
  }

  /** What the reference emission of a scan commits, completed by a flush, decodes to the scan. */
  lemma ReferenceDecodes(c: ScanConfig, slots: HuffSlots, t: Tables, mcus: seq<Mcu>)
    requires ConfigOk(c) && SlotsOk(slots) && TablesOk(t) && McusOk(c, mcus)
    requires AllUsable(c, slots, c.comps) && AllDerived(c, slots, t, c.comps) && !NotWritable(c, t, mcus)
    ensures CodeTablesOk(SentTables(slots))
    ensures var r := Reference(c, t, mcus);
      ScanDecoder.DecodeScan(c, SentTables(slots), r.bytes + Flush(r.pending), |mcus|) == Some(mcus)
  {
    hide ScanTrace, Run, OpsOk, ConfigOk, TablesOk, Flush, AllDerived, AllUsable, SentTables, ScanDecoder.Writable,
      ScanDecoder.DecodeScan;
    var h := SentTables(slots);
    DerivedMatch(c, slots, t);
    ScanOpsOk(c, StartState(c), mcus);
    RunWritable(t, Emission([], [], false), ScanTrace(c, StartState(c), mcus).ops);
    ScanDecoder.ScanRoundTrip(c, t, h, mcus);
  }

  /** The last bits take at most two bytes, for which room is made at the end. */
  ghost predicate LeavesRoom(script: seq<Action>, suspending: bool, size: nat) {
    suspending ==> script != [] && script[|script| - 1] == MakeRoom && size > 2
  }

  lemma FlushSize(pending: seq<bool>)
    requires |pending| < 8
    ensures |Flush(pending)| <= 2
  {
    StuffedSize(pending + Ones(7));
  }

  /** An application that offers every MCU, to a destination that takes everything or in which room is made before every
      offer and at the end, with a buffer that is longer than any MCU. */
  ghost predicate Patient(script: seq<Action>, n: nat, suspending: bool, size: nat) {
    Offers(script) >= n && (suspending ==> Generous(script) && LeavesRoom(script, true, size) && size > MAX_MCU_BYTES)
  }

  lemma PatientUnhindered(c: ScanConfig, t: Tables, mcus: seq<Mcu>, script: seq<Action>, suspending: bool, size: nat)
    requires ConfigOk(c) && TablesOk(t) && McusOk(c, mcus) && Patient(script, |mcus|, suspending, size)
    ensures Unhindered(c, t, mcus, script, suspending, size) && LeavesRoom(script, suspending, size)
  {
    hide Roomy, ConfigOk, TablesOk;
    if suspending { RoomyAlways(c, t, mcus, size); }
  }

  /** A complete pass: start, MCUs under any pattern of suspensions, finish. When it completes, the T.81 decoder,
      given the same Huffman tables, recovers every coefficient from the bytes committed. */
  method CompressScan(enc: HuffEntropyEncoder, slots: HuffSlots, mcus: seq<Mcu>, script: seq<Action>)
    returns (completed: bool)
    requires enc.Valid() && SlotsOk(slots) && McusOk(enc.cfg, mcus)
    modifies enc, enc.dest, enc.dest.buffer
    ensures completed ==> enc.Valid() && old(enc.dest.Committed()) <= enc.dest.Committed()
    ensures CodeTablesOk(SentTables(slots))
    ensures completed ==>
      ScanDecoder.DecodeScan(enc.cfg, SentTables(slots), enc.dest.Committed()[|old(enc.dest.Committed())|..], |mcus|)
        == Some(mcus)
    ensures TablesOk(enc.tables)
    ensures completed ==> enc.dest.Committed() == old(enc.dest.Committed()) + ScanBytes(enc.cfg, enc.tables, mcus)
    ensures completed ==>
      && AllUsable(enc.cfg, slots, enc.cfg.comps)
      && ScanDecoder.TraceWritable(enc.tables, ScanTrace(enc.cfg, StartState(enc.cfg), mcus))
    ensures AllUsable(enc.cfg, slots, enc.cfg.comps) ==>
      && AllDerived(enc.cfg, slots, enc.tables, enc.cfg.comps)
      && (Unhindered(enc.cfg, enc.tables, mcus, script, enc.dest.suspending, enc.dest.buffer.Length)
          && LeavesRoom(script, enc.dest.suspending, enc.dest.buffer.Length) ==>
            (completed
             <==> ScanDecoder.TraceWritable(enc.tables, ScanTrace(enc.cfg, StartState(enc.cfg), mcus))))
  {
    hide ScanTrace, StateAfter, Reference, OpsOk, Held, Holds, ConfigOk, TablesOk, Flush, AllDerived, AllUsable,
      SentTables, NotWritable, StartState, ScanDecoder.DecodeScan, ScanDecoder.TraceWritable, Unhindered;
    SentTablesOk(slots);
    ghost var start := enc.dest.Committed();
    var ok := enc.StartPass(slots);
    if !ok {
      return false;
    }
    var r, done := EncodeMcus(enc, mcus, script);
    if r != Done {
      PrefixNotWritable(enc.cfg, enc.tables, mcus, done + 1);
      return false;
    }
    if done < |mcus| {
      return false;
    }
    assert mcus[..done] == mcus;
    ProgressWritable(enc, mcus, start);
    NoErrorWritable(enc.cfg, enc.tables, mcus);
    ReferenceDecodes(enc.cfg, slots, enc.tables, mcus);
    ghost var e := Reference(enc.cfg, enc.tables, mcus);
    assert start + (e.bytes + Flush(e.pending)) == start + e.bytes + Flush(e.pending);
    FlushSize(enc.Pending());
    r := enc.FinishPass();
    completed := r == Done;
    assert completed ==> enc.dest.Committed()[|start|..] == e.bytes + Flush(e.pending);
  }

  lemma ProgressWritable(enc: HuffEntropyEncoder, mcus: seq<Mcu>, start: seq<byte>)
    requires Progress(enc, mcus, start)
    ensures !NotWritable(enc.cfg, enc.tables, mcus)
  {}

  lemma NoErrorWritable(c: ScanConfig, t: Tables, mcus: seq<Mcu>)
    requires ConfigOk(c) && TablesOk(t) && McusOk(c, mcus) && !NotWritable(c, t, mcus)
    ensures ScanDecoder.TraceWritable(t, ScanTrace(c, StartState(c), mcus))
  {
    hide ScanTrace, Run, OpsOk, ConfigOk, TablesOk, ScanDecoder.Writable, StartState;
    StartOkState(c);
    ScanOpsOk(c, StartState(c), mcus);
    RunWritable(t, Emission([], [], false), ScanTrace(c, StartState(c), mcus).ops);
  }
}
