/** A pass over an image from the samples, or from the stored coefficients, to the bytes of the destination: the
    coefficient controller with the Huffman entropy encoder (jcmaster.c, prepare_for_pass and finish_pass_master). */
module ImageCompression {
  import opened Bits
  import opened HuffmanTable
  import opened Symbols
  import opened Emissions
  import opened BitPacker
  import opened BlockDecoder
  import opened Scans
  import opened EntropyEncoder
  import opened Pictures
  import opened PictureScans
  import opened ImageLayouts
  import opened McuSinks
  import opened CoefControllers
  import opened OptimizedCoding
  import TwoPass
  import ScanDecoder

  // ---- they depend on the tables sent only ----

  /** The two tables give the same codes. */
  ghost predicate SameCodes(a: DerivedTable, b: DerivedTable) {
    && |a.ehufsi| == |b.ehufsi| == |a.ehufco| == |b.ehufco| == 256
    && forall s :: 0 <= s < 256 ==> a.ehufsi[s] == b.ehufsi[s] && (a.ehufsi[s] > 0 ==> a.ehufco[s] == b.ehufco[s])
  }

  lemma DerivedAlike(a: DerivedTable, b: DerivedTable, t: HuffTable)
    requires WellFormed(t) && DerivedFrom(a, t) && DerivedFrom(b, t)
    ensures SameCodes(a, b)
  {
    hide FirstIndex, FirstCode, SizeOf, CodeOf, Total;
    forall s | 0 <= s < 256
      ensures a.ehufsi[s] == b.ehufsi[s] && (a.ehufsi[s] > 0 ==> a.ehufco[s] == b.ehufco[s])
    {
      if a.ehufsi[s] != 0 || b.ehufsi[s] != 0 {
        var p :| 0 <= p < Total(t.bits) && t.huffval[p] == s;
      }
    }
  }

  lemma StepAlike(c: ScanConfig, t: Tables, t': Tables, e: Emission, op: Op)
    requires TablesOk(t) && TablesOk(t') && OpOk(op)
    requires op.Huff? ==> SameCodes(Slot(t, op.isDC, op.tbl), Slot(t', op.isDC, op.tbl))
    ensures Step(t, e, op) == Step(t', e, op)
  {
    hide ToBits, Stuff, FullBytes, Leftover, Flush;
  }

  lemma {:induction false} RunAlike(c: ScanConfig, slots: HuffSlots, t: Tables, t': Tables, e: Emission, ops: seq<Op>)
    requires ConfigOk(c) && SlotsOk(slots) && TablesOk(t) && TablesOk(t') && OpsOk(ops) && OfComponents(c, ops)
    requires AllUsable(c, slots, c.comps) && AllDerived(c, slots, t, c.comps) && AllDerived(c, slots, t', c.comps)
    ensures Run(t, e, ops) == Run(t', e, ops)
  {
    hide Run, Step, DerivedFrom, Acceptable, SameCodes;
    if ops == [] {
      RunNil(t, e);
      RunNil(t', e);
    } else {
      var ops', op := ops[..|ops| - 1], ops[|ops| - 1];
      assert ops == ops' + [op];
      RunAlike(c, slots, t, t', e, ops');
      RunSnoc(t, e, ops', op);
      RunSnoc(t', e, ops', op);
      if op.Huff? { SlotAlike(c, slots, t, t', op); }
      StepAlike(c, t, t', Run(t, e, ops'), op);
    }
  }

  lemma SlotAlike(c: ScanConfig, slots: HuffSlots, t: Tables, t': Tables, op: Op)
    requires ConfigOk(c) && SlotsOk(slots) && TablesOk(t) && TablesOk(t') && OpOk(op) && op.Huff?
    requires op.tbl in if op.isDC then c.dcTbl else c.acTbl
    requires AllUsable(c, slots, c.comps) && AllDerived(c, slots, t, c.comps) && AllDerived(c, slots, t', c.comps)
    ensures SameCodes(Slot(t, op.isDC, op.tbl), Slot(t', op.isDC, op.tbl))
  {
    hide DerivedFrom, Acceptable, SameCodes;
    if op.isDC {
      var ci :| 0 <= ci < c.comps && c.dcTbl[ci] == op.tbl;
      assert Usable(slots.dc, true, c.dcTbl[ci]);
      DerivedAlike(t.dc[op.tbl], t'.dc[op.tbl], slots.dc[op.tbl].value);
    } else {
      var ci :| 0 <= ci < c.comps && c.acTbl[ci] == op.tbl;
      assert Usable(slots.ac, false, c.acTbl[ci]);
      DerivedAlike(t.ac[op.tbl], t'.ac[op.tbl], slots.ac[op.tbl].value);
    }
  }

  /** All tables derived from the same slots give the same bytes. */
  lemma BytesAlike(c: ScanConfig, slots: HuffSlots, t: Tables, t': Tables, mcus: seq<Mcu>)
    requires ConfigOk(c) && SlotsOk(slots) && TablesOk(t) && TablesOk(t') && McusOk(c, mcus)
    requires AllUsable(c, slots, c.comps) && AllDerived(c, slots, t, c.comps) && AllDerived(c, slots, t', c.comps)
    ensures ScanBytes(c, t, mcus) == ScanBytes(c, t', mcus)
  {
    hide ScanTrace, Run, OpsOk, OfComponents, ConfigOk, TablesOk, AllUsable, AllDerived, Flush, StartState;
    StartOkState(c);
    ScanOpsOk(c, StartState(c), mcus);
    ScanOfComponents(c, StartState(c), mcus);
    RunAlike(c, slots, t, t', Emission([], [], false), ScanTrace(c, StartState(c), mcus).ops);
  }

  // ---- a whole pass ----

  /** These are the bytes of the scan with tables derived from these slots. */
  ghost predicate DerivedBytes(c: ScanConfig, slots: HuffSlots, t: Tables, mcus: seq<Mcu>, bytes: seq<byte>)
    requires ConfigOk(c) && SlotsOk(slots) && McusOk(c, mcus) && AllUsable(c, slots, c.comps)
  {
    TablesOk(t) && AllDerived(c, slots, t, c.comps) && bytes == ScanBytes(c, t, mcus)
  }

  /** The destination holds, after start, the bytes of the scan for these slots, and they decode to it. */
  ghost predicate Written(c: ScanConfig, slots: HuffSlots, mcus: seq<Mcu>, start: seq<byte>, now: seq<byte>)
    requires ConfigOk(c) && SlotsOk(slots) && McusOk(c, mcus)
  {
    && AllUsable(c, slots, c.comps) && CodeTablesOk(SentTables(slots)) && start <= now
    && (exists t: Tables :: DerivedBytes(c, slots, t, mcus, now[|start|..]))
    && ScanDecoder.DecodeScan(c, SentTables(slots), now[|start|..], |mcus|) == Some(mcus)
  }

  lemma WrittenBy(c: ScanConfig, slots: HuffSlots, t: Tables, mcus: seq<Mcu>, start: seq<byte>, now: seq<byte>)
    requires ConfigOk(c) && SlotsOk(slots) && McusOk(c, mcus) && TablesOk(t)
    requires AllUsable(c, slots, c.comps) && AllDerived(c, slots, t, c.comps) && !NotWritable(c, t, mcus)
    requires now == start + ScanBytes(c, t, mcus)
    ensures Written(c, slots, mcus, start, now)
  {
    hide Reference, ConfigOk, SlotsOk, McusOk, TablesOk, AllUsable, AllDerived, NotWritable, SentTables, CodeTablesOk,
      ScanDecoder.DecodeScan, ScanBytes;
    ReferenceDecodes(c, slots, t, mcus);
    BytesAre(c, t, mcus);
    assert now[|start|..] == ScanBytes(c, t, mcus);
    assert DerivedBytes(c, slots, t, mcus, now[|start|..]);
  }

  /** Whenever a scan has been written with these slots, the bytes are the same: from the samples or from the virtual
      arrays, in whatever buffers and however often the destination suspended. */
  lemma SameBytes(c: ScanConfig, slots: HuffSlots, mcus: seq<Mcu>, start: seq<byte>, now: seq<byte>,
                  start': seq<byte>, now': seq<byte>)
    requires ConfigOk(c) && SlotsOk(slots) && McusOk(c, mcus)
    requires Written(c, slots, mcus, start, now) && Written(c, slots, mcus, start', now')
    ensures now[|start|..] == now'[|start'|..]
  {
    hide ConfigOk, SlotsOk, McusOk, TablesOk, AllUsable, AllDerived, SentTables, CodeTablesOk, ScanDecoder.DecodeScan,
      ScanBytes;
    var t: Tables :| DerivedBytes(c, slots, t, mcus, now[|start|..]);
    var t': Tables :| DerivedBytes(c, slots, t', mcus, now'[|start'|..]);
    BytesAlike(c, slots, t, t', mcus);
  }

  lemma BytesAre(c: ScanConfig, t: Tables, mcus: seq<Mcu>)
    requires ConfigOk(c) && TablesOk(t) && McusOk(c, mcus)
    ensures var r := Reference(c, t, mcus); ScanBytes(c, t, mcus) == r.bytes + Flush(r.pending)
  {}

  /** The MCUs of a scan of an image. */
  ghost function ImageScan(p: Picture, c: ScanConfig): (mcus: seq<Mcu>)
    requires ConfigFor(p, c)
    ensures McusOk(c, mcus)
  {
    PictureComps(p);
    RowsFit(p, c, p.totalRows);
    Rows(p, p.totalRows)
  }

  lemma ImageScanIs(p: Picture, c: ScanConfig)
    requires ConfigFor(p, c)
    ensures PictureOk(p) && CompsOk(p) && ConfigOk(c) && ImageScan(p, c) == Rows(p, p.totalRows)
  {
    PictureComps(p);
  }

  /** A pass over the given components, in any mode, against a destination that may suspend at any byte. What it
      completes is the scan of the image: the same bytes whether the coefficients come from the samples or from the
      virtual arrays, and they decode to the MCUs. If the application is patient it completes exactly the scans that can
      be written. */
  method CompressImage(coef: CoefController, enc: HuffEntropyEncoder, slots: HuffSlots, passMode: PassMode,
                       scan: seq<nat>, script: seq<Action>)
    returns (completed: bool)
    requires coef.Valid() && coef.Allocated() && enc.Valid() && SlotsOk(slots)
    requires passMode == CrankDest && coef.wholeImage != [] ==> coef.Filled(coef.p.totalRows)
    requires ConfigFor(coef.p.(scan := scan), enc.cfg)
    modifies coef, coef.mcuBuffer, coef.wholeImage, enc, enc.dest, enc.dest.buffer
    ensures coef.Valid() && coef.Allocated() && TablesOk(enc.tables)
    ensures completed ==> coef.p == old(coef.p).(scan := scan) && enc.Valid()
    ensures completed && coef.wholeImage != [] ==> coef.Filled(coef.p.totalRows)
    ensures completed ==>
      Written(enc.cfg, slots, ImageScan(old(coef.p).(scan := scan), enc.cfg), old(enc.dest.Committed()),
              enc.dest.Committed())
    ensures AllUsable(enc.cfg, slots, enc.cfg.comps) && passMode.PassThru? == (coef.wholeImage == []) ==>
      var mcus := ImageScan(old(coef.p).(scan := scan), enc.cfg);
      && AllDerived(enc.cfg, slots, enc.tables, enc.cfg.comps)
      && (Patient(script, |mcus|, enc.dest.suspending, enc.dest.buffer.Length) ==>
           (completed <==> ScanDecoder.TraceWritable(enc.tables, ScanTrace(enc.cfg, StartState(enc.cfg), mcus))))
  {
    hide ScanTrace, StateAfter, Reference, Rows, Sent, ConfigOk, TablesOk, McusOk, Flush, AllDerived, AllUsable,
      PictureOk, CompsOk, ConfigFor, SentTables, NotWritable, StartState, ScanDecoder.TraceWritable, Written,
      ScanBytes, ImageScan, CoefController.Valid, CoefController.Allocated, CoefController.Filled, McuSink.Valid,
      Generous;
    ghost var p := coef.p.(scan := scan);
    ImageScanIs(p, enc.cfg);
    completed := enc.StartPass(slots);
    if completed {
      var sink := new McuSink(enc);
      completed := coef.RunPass(passMode, scan, sink, script);
      completed := completed && !sink.failed && coef.iMcuRowNum == coef.p.totalRows;
      if completed {
        completed := FinishScan(sink, slots, ImageScan(p, enc.cfg), script);
      }
    }
  }

  /** finish_pass_huff after the last MCU. */
  method FinishScan(sink: McuSink, slots: HuffSlots, ghost mcus: seq<Mcu>, ghost script: seq<Action>)
    returns (completed: bool)
    requires sink.Valid() && !sink.failed && sink.log == mcus && SlotsOk(slots)
    requires AllUsable(sink.enc.cfg, slots, sink.enc.cfg.comps)
    requires AllDerived(sink.enc.cfg, slots, sink.enc.tables, sink.enc.cfg.comps)
    modifies sink.enc`putBuffer, sink.enc`putBits, sink.enc.dest, sink.enc.dest.buffer
    ensures ScanDecoder.TraceWritable(sink.enc.tables, ScanTrace(sink.enc.cfg, StartState(sink.enc.cfg), mcus))
    ensures completed ==> sink.enc.Valid() && Written(sink.enc.cfg, slots, mcus, sink.start, sink.enc.dest.Committed())
    ensures !completed ==> sink.enc.dest.suspending && old(sink.enc.dest.free) <= 2
  {
    hide ScanTrace, StateAfter, Reference, ConfigOk, TablesOk, McusOk, Flush, AllDerived, AllUsable, NotWritable,
      StartState, ScanDecoder.TraceWritable, Written, ScanBytes, Held, Holds;
    var enc := sink.enc;
    ProgressWritable(enc, mcus, sink.start);
    NoErrorWritable(enc.cfg, enc.tables, mcus);
    BytesAre(enc.cfg, enc.tables, mcus);
    ghost var e := Reference(enc.cfg, enc.tables, mcus);
    assert sink.start + (e.bytes + Flush(e.pending)) == sink.start + e.bytes + Flush(e.pending);
    PendingShort(enc.cfg, enc.tables, mcus);
    FlushSize(enc.Pending());
    var r := enc.FinishPass();
    completed := r == Done;
    if completed { WrittenBy(enc.cfg, slots, enc.tables, mcus, sink.start, enc.dest.Committed()); }
  }

  /** In the scan of an image every component has a block in each MCU, as the statistics pass needs it. */
  lemma ComponentsPresent(p: Picture, c: ScanConfig)
    requires ConfigFor(p, c) && ConfigOk(c)
    ensures TwoPass.AllPresent(c)
  {
    hide Membership, ConfigOk;
    forall k | 0 <= k < c.comps ensures k in c.membership {
      FirstBlock(p, k);
      MembershipAt(p, |p.scan|, k, BlocksBefore(p, k));
    }
  }

  lemma FirstBlock(p: Picture, k: nat)
    requires PictureOk(p) && k < |p.scan|
    ensures BlocksBefore(p, k) < BlocksBefore(p, k + 1)
  {
    assert ComponentOk(p, p.scan[k]);
    MulAtLeast(McuWidth(p, p.scan[k]), McuHeight(p, p.scan[k]));
  }
}
