/** The entropy encoder as the coefficient controller uses it during a pass. */
module McuSinks {
  import opened Bits
  import opened Symbols
  import opened Emissions
  import opened BitPacker
  import opened Scans
  import opened McuSizes
  import opened EntropyEncoder

  /** The Huffman entropy encoder during one pass: it takes a whole MCU, or suspends and takes nothing, or fails, which
      ends the compression. */
  class McuSink {
    const enc: HuffEntropyEncoder
    ghost const start: seq<byte>  // what had been committed before the pass
    ghost var log: seq<Mcu>  // the MCUs taken
    ghost var refused: seq<Mcu>  // after a failure, these and the MCU that failed
    ghost var suspensions: nat
    var failed: bool

    ghost predicate Valid()
      reads this, enc, enc.dest, enc.dest.buffer
    {
      && ConfigOk(enc.cfg) && TablesOk(enc.tables) && McusOk(enc.cfg, log)
      && (if failed then McusOk(enc.cfg, refused) && NotWritable(enc.cfg, enc.tables, refused)
          else Progress(enc, log, start))
    }

    constructor (enc: HuffEntropyEncoder)
      requires enc.Valid() && enc.State() == StartState(enc.cfg) && enc.Pending() == []
      ensures this.enc == enc && start == enc.dest.Committed() && log == [] && suspensions == 0 && !failed && Valid()
    {
      this.enc := enc;
      start := enc.dest.Committed();
      log, refused, suspensions, failed := [], [], 0, false;
      ReferenceStart(enc.cfg, enc.tables);
    }

    /** A call through the encode_mcu method pointer. A failure does not return in the source. */
    method EncodeMcu(buffer: array<Block>, n: nat) returns (ok: bool)
      requires Valid() && !failed && n <= buffer.Length && McuOk(enc.cfg, buffer[..n])
      modifies this, enc, enc.dest, enc.dest.buffer
      ensures Valid() && enc.tables == old(enc.tables) && (ok ==> !failed)
      ensures log == if ok then old(log) + [buffer[..n]] else old(log)
      ensures suspensions == old(suspensions) + if ok || failed then 0 else 1
      ensures failed ==> refused == log + [buffer[..n]]
      ensures !ok && !failed ==> enc.dest.suspending && old(enc.dest.free) <= MAX_MCU_BYTES
    {
      hide Progress, NotWritable, ConfigOk, TablesOk, McusOk, McuOk, Reference;
      ghost var mcu, free := buffer[..n], enc.dest.free;
      ProgressWritable(enc, log, start);
      var r := OfferMcu(enc, log, buffer[..n], start);
      if r == Done {
        log := log + [mcu];
      } else if r == Suspended {
        suspensions := suspensions + 1;
        TooLittleRoom(enc.cfg, enc.tables, log, mcu, free);
      } else {
        refused := log + [mcu];
        failed := true;
      }
      ok := r == Done;
    }

    /** What an application does between calls. */
    method MakeRoom()
      requires Valid() && !failed
      modifies enc.dest
      ensures Valid() && enc.dest.free == enc.dest.buffer.Length
    {
      hide ScanTrace, StateAfter, Reference, ConfigOk, TablesOk, McusOk;
      enc.dest.Drain();
    }
  }

  lemma TooLittleRoom(c: ScanConfig, t: Tables, mcus: seq<Mcu>, mcu: Mcu, free: nat)
    requires ConfigOk(c) && TablesOk(t) && McusOk(c, mcus) && !NotWritable(c, t, mcus) && McuOk(c, mcu)
    requires McusOk(c, mcus + [mcu])
    requires |Reference(c, t, mcus + [mcu]).bytes| >= |Reference(c, t, mcus).bytes| + free
    ensures free <= MAX_MCU_BYTES
  {
    hide Reference, NotWritable, ConfigOk, TablesOk;
    var all := mcus + [mcu];
    assert all[..|mcus|] == mcus && all[..|mcus| + 1] == all;
    RoomyAlways(c, t, all, MAX_MCU_BYTES + 1);
    assert RoomFor(c, t, all, MAX_MCU_BYTES + 1, |mcus|);
  }
}
