/** The coefficient controller (jccoefct.c): the single-pass path and the multi-pass path to the MCUs of a scan. */
module CoefControllers {
  import opened Bits
  import opened Symbols
  import opened Emissions
  import opened BitPacker
  import opened Scans
  import opened Pictures
  import opened VirtualArrays
  import opened PictureScans
  import opened McuSizes
  import opened McuSinks
  import opened EntropyEncoder
  import ScanDecoder

  /** J_BUF_MODE: which method compress_data points to. */
  datatype PassMode = PassThru | SaveAndPass | CrankDest

  /** What a call of compress_data found. */
  datatype Entry = Entry(log: seq<Mcu>, free: nat, suspensions: nat, tables: Tables)

  ghost function Found(sink: McuSink): Entry
    reads sink, sink.enc, sink.enc.dest
  {
    Entry(sink.log, sink.enc.dest.free, sink.suspensions, sink.enc.tables)
  }

  /** The sink has taken the scan up to (y, c) of an iMCU row; if it has taken nothing yet, its buffer is as it was. */
  ghost predicate Running(sink: McuSink, p: Picture, row: nat, y: nat, c: nat, was: Entry)
    requires CompsOk(p)
    reads sink, sink.enc, sink.enc.dest, sink.enc.dest.buffer
  {
    && ConfigFor(p, sink.enc.cfg) && sink.Valid() && !sink.failed && sink.log == Sent(p, row, y, c)
    && sink.suspensions == was.suspensions && sink.enc.tables == was.tables
    && was.log <= sink.log && (sink.log == was.log ==> sink.enc.dest.free == was.free)
  }

  /** It has not taken the MCU at (y, c): it has suspended, for want of room, or failed. */
  ghost predicate Stopped(sink: McuSink, p: Picture, row: nat, y: nat, c: nat, was: Entry)
    requires CompsOk(p)
    reads sink, sink.enc, sink.enc.dest, sink.enc.dest.buffer
  {
    && ConfigFor(p, sink.enc.cfg) && sink.Valid() && sink.log == Sent(p, row, y, c)
    && (sink.failed ==> sink.refused == Sent(p, row, y, c + 1))
    && sink.suspensions == was.suspensions + (if sink.failed then 0 else 1) && sink.enc.tables == was.tables
    && was.log <= sink.log
    && (!sink.failed && sink.log == was.log ==> sink.enc.dest.suspending && was.free <= MAX_MCU_BYTES)
  }

  /** Offers the MCU at (y, c). */
  method HandOver(p: Picture, row: nat, y: nat, c: nat, sink: McuSink, buffer: array<Block>, n: nat, ghost was: Entry)
    returns (ok: bool)
    requires CompsOk(p) && Running(sink, p, row, y, c, was) && n <= buffer.Length && buffer[..n] == McuAt(p, row, y, c)
    modifies sink, sink.enc, sink.enc.dest, sink.enc.dest.buffer
    ensures ok ==> Running(sink, p, row, y, c + 1, was)
    ensures !ok ==> Stopped(sink, p, row, y, c, was)
  {
    hide Sent, ConfigFor, McuAt, CompsOk, McuSink.Valid;
    McuFits(p, sink.enc.cfg, row, y, c);
    SentStep(p, row, y, c);
    ok := sink.EncodeMcu(buffer, n);
  }

  /** At the end of an MCU row, and of an iMCU row. */
  lemma RowEnd(sink: McuSink, p: Picture, row: nat, y: nat, was: Entry)
    requires CompsOk(p)
    ensures Running(sink, p, row, y, McusPerRow(p), was) ==> Running(sink, p, row, y + 1, 0, was)
    ensures Running(sink, p, row, RowsPer(p, row), 0, was) ==> Running(sink, p, row + 1, 0, 0, was)
  {
    hide Sent, ConfigFor, McuSink.Valid;
    SentStep(p, row, y, 0);
  }

  /** The destination takes everything, or room is made before every call in a buffer longer than any MCU. */
  ghost predicate Advancing(script: seq<Action>, dest: Destination) {
    dest.suspending ==> Generous(script) && dest.buffer.Length > MAX_MCU_BYTES
  }

  class CoefController {
    var p: Picture
    const mcuBuffer: array<Block>
    const wholeImage: seq<array2<Block>>
    var iMcuRowNum: nat
    var mcuCtr: nat
    var mcuVertOffset: nat
    var mcuRowsPerIMcuRow: nat
    var mode: PassMode

    ghost predicate Shape()
      reads this
    {
      PictureOk(p) && CompsOk(p) && mcuBuffer.Length == C_MAX_BLOCKS_IN_MCU
    }

    ghost predicate Valid()
      reads this
    {
      && Shape()
      && iMcuRowNum <= p.totalRows
      && mcuRowsPerIMcuRow == RowsPer(p, iMcuRowNum)
      && mcuVertOffset < mcuRowsPerIMcuRow && mcuCtr < McusPerRow(p)
      && (iMcuRowNum == p.totalRows ==> mcuVertOffset == 0 && mcuCtr == 0)
    }

    /** Either no virtual arrays, or one for each component. */
    ghost predicate Allocated()
      requires Shape()
      reads this
    {
      wholeImage == []
      || (|wholeImage| == |p.comps|
          && (forall k: nat :: k < |p.comps| ==> ArrayOk(wholeImage[k], p, k))
          && (forall j: nat, k: nat :: j < k < |wholeImage| ==> wholeImage[j] != wholeImage[k]))
    }

    /** The virtual arrays hold the strips of the first n iMCU rows. */
    ghost predicate Filled(n: nat)
      requires Shape() && Allocated()
      reads this, wholeImage
    {
      wholeImage != []
      && forall ci: nat :: ci < |wholeImage| ==> CompOk(p, ci) && ArrayFilled(wholeImage[ci], p, ci, n * p.comps[ci].v)
    }

    /** The MCUs that the current pass has handed over. */
    ghost function Progress(): seq<Mcu>
      requires Valid()
      reads this
    {
      Sent(p, iMcuRowNum, mcuVertOffset, mcuCtr)
    }

    /** The sink is in a pass over this scan and has taken these MCUs; if it failed, then at the next one. */
    ghost predicate Linked(sink: McuSink)
      requires Valid()
      reads this, sink, sink.enc, sink.enc.dest, sink.enc.dest.buffer
    {
      && ConfigFor(p, sink.enc.cfg) && sink.Valid() && sink.log == Progress()
      && (sink.failed ==> sink.refused == Sent(p, iMcuRowNum, mcuVertOffset, mcuCtr + 1))
    }

    /** jinit_c_coef_controller */
    constructor (p: Picture, needFullBuffer: bool)
      requires PictureOk(p)
      ensures this.p == p && fresh(mcuBuffer)
      ensures Valid() && Progress() == [] && Allocated()
      ensures (wholeImage != []) == needFullBuffer && forall a :: a in wholeImage ==> fresh(a)
    {
      PictureComps(p);
      var images: seq<array2<Block>> := [];
      if needFullBuffer {
        var ci := 0;
        while ci < |p.comps|
          invariant ci <= |p.comps| && |images| == ci
          invariant forall k :: 0 <= k < ci ==> fresh(images[k]) && ArrayOk(images[k], p, k)
          invariant forall j, k :: 0 <= j < k < ci ==> images[j] != images[k]
        {
          var comp := p.comps[ci];
          assert CompOk(p, ci);
          var a := new Block[RoundUp(comp.heightInBlocks, comp.v), RoundUp(comp.widthInBlocks, comp.h)];
          images := images + [a];
          ci := ci + 1;
        }
      }
      this.p := p;
      mcuBuffer := new Block[C_MAX_BLOCKS_IN_MCU];
      wholeImage := images;
      mode := PassThru;
      iMcuRowNum := 0;
      new;
      StartIMcuRow();
      SentStep(p, 0, 0, 0);
    }

    method StartIMcuRow()
      requires Shape() && iMcuRowNum <= p.totalRows
      modifies `mcuRowsPerIMcuRow, `mcuCtr, `mcuVertOffset
      ensures Valid() && mcuCtr == 0 && mcuVertOffset == 0
    {
      if |p.scan| > 1 {
        mcuRowsPerIMcuRow := 1;
      } else {
        if iMcuRowNum < p.totalRows - 1 {
          mcuRowsPerIMcuRow := p.comps[p.scan[0]].v;
        } else {
          mcuRowsPerIMcuRow := LastRowHeight(p, p.scan[0]);
        }
      }
      mcuCtr := 0;
      mcuVertOffset := 0;
    }

    lemma StartRunning(sink: McuSink, was: Entry)
      requires Valid() && Linked(sink) && !sink.failed && was == Found(sink)
      ensures Running(sink, p, iMcuRowNum, mcuVertOffset, mcuCtr, was)
    {
      hide Sent, ConfigFor, McuSink.Valid, PictureOk, CompsOk;
    }

    /** The end of an iMCU row. */
    method NextRow(sink: McuSink, ghost was: Entry)
      requires Valid() && iMcuRowNum < p.totalRows && mcuCtr == 0
      requires Running(sink, p, iMcuRowNum, mcuRowsPerIMcuRow, 0, was)
      modifies `iMcuRowNum, `mcuCtr, `mcuVertOffset, `mcuRowsPerIMcuRow
      ensures Valid() && iMcuRowNum == old(iMcuRowNum) + 1
      ensures Linked(sink) && !sink.failed && sink.enc.tables == was.tables && sink.suspensions == was.suspensions
      ensures was.log <= sink.log
    {
      hide Sent, PictureOk, RowsPer, Running, Linked;
      ghost var q, row := p, iMcuRowNum;
      RowEnd(sink, q, row, 0, was);
      assert Running(sink, q, row + 1, 0, 0, was);
      iMcuRowNum := iMcuRowNum + 1;
      StartIMcuRow();
      assert Running(sink, q, row + 1, 0, 0, was);
      RunningLinked(sink, q, row + 1, was);
    }

    lemma RunningLinked(sink: McuSink, q: Picture, row: nat, was: Entry)
      requires Valid() && p == q && iMcuRowNum == row && mcuVertOffset == 0 && mcuCtr == 0
      requires Running(sink, q, row, 0, 0, was)
      ensures Linked(sink) && !sink.failed && sink.enc.tables == was.tables && sink.suspensions == was.suspensions
      ensures was.log <= sink.log
    {
      hide Sent, ConfigFor, McuSink.Valid, PictureOk, CompsOk;
    }

    lemma StoppedLinked(sink: McuSink, was: Entry)
      requires Valid() && Stopped(sink, p, iMcuRowNum, mcuVertOffset, mcuCtr, was)
      ensures Linked(sink) && sink.enc.tables == was.tables && was.log <= sink.log
      ensures sink.suspensions == was.suspensions + if sink.failed then 0 else 1
      ensures !sink.failed && sink.log == was.log ==> sink.enc.dest.suspending && was.free <= MAX_MCU_BYTES
    {
      hide Sent, ConfigFor, McuSink.Valid, PictureOk, CompsOk;
    }

    // ---- single pass ----

    /** forward_DCT on a horizontal row of count blocks. */
    method ForwardDct(ci: nat, at: nat, ypos: nat, xpos: nat, count: nat)
      requires at + count <= mcuBuffer.Length
      modifies mcuBuffer
      ensures forall i: nat :: i < count ==> mcuBuffer[at + i] == p.dct(iMcuRowNum, ci, ypos, xpos + DCTSIZE * i)
      ensures forall k :: 0 <= k < mcuBuffer.Length && !(at <= k < at + count) ==> mcuBuffer[k] == old(mcuBuffer[k])
    {
      var i := 0;
      while i < count
        invariant i <= count
        invariant forall j: nat :: j < i ==> mcuBuffer[at + j] == p.dct(iMcuRowNum, ci, ypos, xpos + DCTSIZE * j)
        invariant forall k :: 0 <= k < mcuBuffer.Length && !(at <= k < at + i) ==> mcuBuffer[k] == old(mcuBuffer[k])
      {
        mcuBuffer[at + i] := p.dct(iMcuRowNum, ci, ypos, xpos + DCTSIZE * i);
        i := i + 1;
      }
    }

    /** jzero_far */
    method Zero(from: nat, to: nat)
      requires from <= to <= mcuBuffer.Length
      modifies mcuBuffer
      ensures forall k :: from <= k < to ==> mcuBuffer[k] == ZeroBlock()
      ensures forall k :: 0 <= k < mcuBuffer.Length && !(from <= k < to) ==> mcuBuffer[k] == old(mcuBuffer[k])
    {
      forall k | from <= k < to { mcuBuffer[k] := ZeroBlock(); }
    }

    /** Dummy blocks at the right edge: each takes the DC value of the block before it. */
    method RightDummies(from: nat, to: nat)
      requires 0 < from <= to <= mcuBuffer.Length
      modifies mcuBuffer
      ensures forall k :: from <= k < to ==> mcuBuffer[k] == DcBlock(old(mcuBuffer[from - 1])[0])
      ensures forall k :: 0 <= k < mcuBuffer.Length && !(from <= k < to) ==> mcuBuffer[k] == old(mcuBuffer[k])
    {
      Zero(from, to);
      var bi := from;
      while bi < to
        invariant from <= bi <= to
        invariant forall k :: bi <= k < to ==> mcuBuffer[k] == ZeroBlock()
        invariant forall k :: from <= k < bi ==> mcuBuffer[k] == DcBlock(old(mcuBuffer[from - 1])[0])
        invariant forall k :: 0 <= k < mcuBuffer.Length && !(from <= k < to) ==> mcuBuffer[k] == old(mcuBuffer[k])
      {
        WithDc(mcuBuffer[bi - 1][0]);
        mcuBuffer[bi] := mcuBuffer[bi][0 := mcuBuffer[bi - 1][0]];
        bi := bi + 1;
      }
    }

    /** A row of dummy blocks at the bottom: all take the DC value of the block before the row. */
    method BottomDummies(from: nat, to: nat)
      requires 0 < from <= to <= mcuBuffer.Length
      modifies mcuBuffer
      ensures forall k :: from <= k < to ==> mcuBuffer[k] == DcBlock(old(mcuBuffer[from - 1])[0])
      ensures forall k :: 0 <= k < mcuBuffer.Length && !(from <= k < to) ==> mcuBuffer[k] == old(mcuBuffer[k])
    {
      Zero(from, to);
      var bi := from;
      while bi < to
        invariant from <= bi <= to
        invariant forall k :: bi <= k < to ==> mcuBuffer[k] == ZeroBlock()
        invariant forall k :: from <= k < bi ==> mcuBuffer[k] == DcBlock(old(mcuBuffer[from - 1])[0])
        invariant forall k :: 0 <= k < mcuBuffer.Length && !(from <= k < to) ==> mcuBuffer[k] == old(mcuBuffer[k])
      {
        WithDc(mcuBuffer[from - 1][0]);
        mcuBuffer[bi] := mcuBuffer[bi][0 := mcuBuffer[from - 1][0]];
        bi := bi + 1;
      }
    }

    /** A block row inside the image: DCT for the real blocks, dummy blocks after them. */
    method RealBlockRow(ci: nat, blkn: nat, y: nat, c: nat, blockcnt: nat)
      requires Shape() && CompOk(p, ci) && ci in p.scan && c < McusPerRow(p) && blockcnt == BlockCount(p, ci, c)
      requires blkn + McuWidth(p, ci) <= C_MAX_BLOCKS_IN_MCU && y < RealRows(p, ci, iMcuRowNum)
      modifies mcuBuffer
      ensures forall k: nat :: k < blkn ==> mcuBuffer[k] == old(mcuBuffer[k])
      ensures forall i: nat :: i < McuWidth(p, ci) ==> mcuBuffer[blkn + i] == McuBlock(p, ci, iMcuRowNum, y, c, i)
    {
      hide McuBlock, DcBlock, McuWidth, LastColWidth, RealRows, BlockCount, PictureOk;
      var w := McuWidth(p, ci);
      WidthPositive(p, ci);
      RealColumns(p, ci, c, 0);
      ForwardDct(ci, blkn, y * DCTSIZE, c * (w * DCTSIZE), blockcnt);
      if blockcnt < w { RightDummies(blkn + blockcnt, blkn + w); }
      forall i: nat | i < w ensures mcuBuffer[blkn + i] == McuBlock(p, ci, iMcuRowNum, y, c, i) {
        RealRowBlock(p, ci, iMcuRowNum, y, c, i);
      }
    }

    /** One row of blocks of a component, placed at blkn in the MCU buffer. */
    method BlockRow(ci: nat, blkn: nat, yoffset: nat, yindex: nat, c: nat)
      requires Shape() && iMcuRowNum < p.totalRows && CompOk(p, ci) && ci in p.scan && c < McusPerRow(p)
      requires blkn + McuWidth(p, ci) <= C_MAX_BLOCKS_IN_MCU && yoffset + yindex < p.comps[ci].v
      requires yoffset + yindex >= RealRows(p, ci, iMcuRowNum) ==> Interleaved(p) && blkn > 0
      requires yoffset + yindex >= RealRows(p, ci, iMcuRowNum) ==>
        mcuBuffer[blkn - 1] == McuBlock(p, ci, iMcuRowNum, yoffset + yindex - 1, c, McuWidth(p, ci) - 1)
      modifies mcuBuffer
      ensures mcuBuffer[..blkn] == old(mcuBuffer[..blkn])
      ensures mcuBuffer[blkn..blkn + McuWidth(p, ci)] == RowBlocks(p, ci, iMcuRowNum, yoffset + yindex, c)
    {
      hide McuBlock, DcBlock, McuWidth, LastColWidth, LastRowHeight, PictureOk;
      var w := McuWidth(p, ci);
      if iMcuRowNum < p.totalRows - 1 || yoffset + yindex < LastRowHeight(p, ci) {
        var blockcnt := if c < McusPerRow(p) - 1 then w else LastColWidth(p, ci);
        RealBlockRow(ci, blkn, yoffset + yindex, c, blockcnt);
      } else {
        BottomDummies(blkn, blkn + w);
        ghost var y := yoffset + yindex;
        forall i: nat | i < w ensures mcuBuffer[blkn + i] == McuBlock(p, ci, iMcuRowNum, y, c, i) {
          BottomRowBlock(p, ci, iMcuRowNum, y, c, i);
        }
      }
    }

    /** The MCU at (yoffset, c), built from the samples. */
    method BuildMcu(yoffset: nat, c: nat) returns (blkn: nat)
      requires Valid() && iMcuRowNum < p.totalRows && c < McusPerRow(p) && yoffset < mcuRowsPerIMcuRow
      modifies mcuBuffer
      ensures blkn <= C_MAX_BLOCKS_IN_MCU && mcuBuffer[..blkn] == McuAt(p, iMcuRowNum, yoffset, c)
    {
      hide McuBlocks, CompBlocks, RowBlocks, McuAt, McuBlock, BlocksBefore, McuWidth, McuHeight, PictureOk, RowsPer,
        RealRows;
      blkn := 0;
      var k := 0;
      McuStart(p, iMcuRowNum, yoffset, c);
      while k < |p.scan|
        invariant k <= |p.scan| && blkn == BlocksBefore(p, k) <= C_MAX_BLOCKS_IN_MCU
        invariant mcuBuffer[..blkn] == McuBlocks(p, iMcuRowNum, yoffset, c, k)
      {
        McuStep(p, iMcuRowNum, yoffset, c, k);
        blkn := BuildComponent(k, blkn, yoffset, c);
        k := k + 1;
      }
    }

    /** The blocks of component k of the scan in the MCU, placed from start on. */
    method BuildComponent(k: nat, start: nat, yoffset: nat, c: nat) returns (blkn: nat)
      requires Valid() && iMcuRowNum < p.totalRows && c < McusPerRow(p) && yoffset < mcuRowsPerIMcuRow
      requires k < |p.scan| && start == BlocksBefore(p, k) <= C_MAX_BLOCKS_IN_MCU
      modifies mcuBuffer
      ensures blkn == BlocksBefore(p, k + 1) <= C_MAX_BLOCKS_IN_MCU && CompOk(p, p.scan[k])
      ensures mcuBuffer[..blkn]
        == old(mcuBuffer[..start]) + CompBlocks(p, p.scan[k], iMcuRowNum, yoffset, c, McuHeight(p, p.scan[k]))
    {
      hide McuBlocks, CompBlocks, RowBlocks, McuAt, McuBlock, BlocksBefore, McuWidth, McuHeight, PictureOk, RowsPer,
        RealRows;
      blkn := start;
      var ci := p.scan[k];
      ghost var before := mcuBuffer[..start];
      InScan(p, k);
      CompStep(p, ci, iMcuRowNum, yoffset, c, 0);
      BlocksBeforeStep(p, k);
      BufferRoom(p, k + 1);
      var w, yindex := McuWidth(p, ci), 0;
      while yindex < McuHeight(p, ci)
        invariant yindex <= McuHeight(p, ci) && blkn == start + yindex * w <= C_MAX_BLOCKS_IN_MCU
        invariant mcuBuffer[..blkn] == before + CompBlocks(p, ci, iMcuRowNum, yoffset, c, yindex)
      {
        CompStep(p, ci, iMcuRowNum, yoffset, c, yindex);
        RowRoom(p, k, yindex);
        BlockAbove(p, ci, iMcuRowNum, yoffset, yindex, c, before);
        Distribute(yindex, 1, w);
        BlockRow(ci, blkn, yoffset, yindex, c);
        assert mcuBuffer[..blkn + w] == mcuBuffer[..blkn] + mcuBuffer[blkn..blkn + w];
        blkn := blkn + w;
        yindex := yindex + 1;
      }
    }

    /** One MCU row of compress_data; when the encoder does not take an MCU, the counters say which. */
    method DataRow(sink: McuSink, yoffset: nat, ghost was: Entry) returns (ok: bool)
      requires Valid() && iMcuRowNum < p.totalRows && yoffset < mcuRowsPerIMcuRow
      requires Running(sink, p, iMcuRowNum, yoffset, mcuCtr, was)
      modifies `mcuCtr, `mcuVertOffset, mcuBuffer, sink, sink.enc, sink.enc.dest, sink.enc.dest.buffer
      ensures Valid()
      ensures ok ==> mcuCtr == 0 && mcuVertOffset == old(mcuVertOffset)
      ensures ok ==> Running(sink, p, iMcuRowNum, yoffset + 1, 0, was)
      ensures !ok ==> Stopped(sink, p, iMcuRowNum, mcuVertOffset, mcuCtr, was)
    {
      hide Sent, McuAt, PictureOk, RowsPer, Running, Stopped;
      var c := mcuCtr;
      while c <= McusPerRow(p) - 1
        invariant Valid() && c <= McusPerRow(p) && mcuCtr == old(mcuCtr) && mcuVertOffset == old(mcuVertOffset)
        invariant Running(sink, p, iMcuRowNum, yoffset, c, was)
      {
        var n := BuildMcu(yoffset, c);
        ok := HandOver(p, iMcuRowNum, yoffset, c, sink, mcuBuffer, n, was);
        if !ok {
          mcuVertOffset := yoffset;
          mcuCtr := c;
          return;
        }
        c := c + 1;
      }
      RowEnd(sink, p, iMcuRowNum, yoffset, was);
      mcuCtr := 0;
      ok := true;
    }

    /** Single pass: as much as one iMCU row, from the samples. Returns false when the entropy encoder suspended. */
    method CompressData(sink: McuSink) returns (done: bool)
      requires Valid() && iMcuRowNum < p.totalRows && Linked(sink) && !sink.failed
      modifies `iMcuRowNum, `mcuCtr, `mcuVertOffset, `mcuRowsPerIMcuRow, mcuBuffer
      modifies sink, sink.enc, sink.enc.dest, sink.enc.dest.buffer
      ensures Valid() && Linked(sink) && sink.enc.tables == old(sink.enc.tables) && (done ==> !sink.failed)
      ensures iMcuRowNum == old(iMcuRowNum) + (if done then 1 else 0)
      ensures sink.suspensions == old(sink.suspensions) + (if done || sink.failed then 0 else 1)
      ensures old(sink.log) <= sink.log
      ensures !done && !sink.failed && sink.log == old(sink.log) ==>
        sink.enc.dest.suspending && old(sink.enc.dest.free) <= MAX_MCU_BYTES
    {
      hide Sent, McuAt, PictureOk, CompsOk, RowsPer, Running, Stopped, Linked;
      var yoffset := mcuVertOffset;
      ghost var was := Found(sink);
      StartRunning(sink, was);
      while yoffset < mcuRowsPerIMcuRow
        invariant Valid() && iMcuRowNum == old(iMcuRowNum) && yoffset <= mcuRowsPerIMcuRow
        invariant yoffset == mcuRowsPerIMcuRow ==> mcuCtr == 0
        invariant Running(sink, p, iMcuRowNum, yoffset, mcuCtr, was)
      {
        var ok := DataRow(sink, yoffset, was);
        if !ok {
          StoppedLinked(sink, was);
          return false;
        }
        yoffset := yoffset + 1;
      }
      NextRow(sink, was);
      return true;
    }

    // ---- multi-pass ----

    /** The blocks of component k of the scan in the MCU, taken from its virtual array. */
    method GatherComponent(k: nat, a: array2<Block>, start: nat, yoffset: nat, c: nat) returns (blkn: nat)
      requires Valid() && iMcuRowNum < p.totalRows && c < McusPerRow(p) && yoffset < mcuRowsPerIMcuRow
      requires k < |p.scan| && start == BlocksBefore(p, k) <= C_MAX_BLOCKS_IN_MCU
      requires var ci := p.scan[k]; ArrayOk(a, p, ci) && ArrayFilled(a, p, ci, (iMcuRowNum + 1) * p.comps[ci].v)
      modifies mcuBuffer
      ensures blkn == BlocksBefore(p, k + 1) <= C_MAX_BLOCKS_IN_MCU && CompOk(p, p.scan[k])
      ensures mcuBuffer[..blkn]
        == old(mcuBuffer[..start]) + CompBlocks(p, p.scan[k], iMcuRowNum, yoffset, c, McuHeight(p, p.scan[k]))
    {
      hide McuBlocks, CompBlocks, RowBlocks, McuAt, McuBlock, BlocksBefore, McuWidth, McuHeight, PictureOk, RowsPer,
        RealRows, ArrayFilled;
      blkn := start;
      var ci := p.scan[k];
      ghost var before := mcuBuffer[..start];
      InScan(p, k);
      CompStep(p, ci, iMcuRowNum, yoffset, c, 0);
      BlocksBeforeStep(p, k);
      BufferRoom(p, k + 1);
      var w, yindex := McuWidth(p, ci), 0;
      while yindex < McuHeight(p, ci)
        invariant yindex <= McuHeight(p, ci) && blkn == start + yindex * w <= C_MAX_BLOCKS_IN_MCU
        invariant mcuBuffer[..blkn] == before + CompBlocks(p, ci, iMcuRowNum, yoffset, c, yindex)
      {
        CompStep(p, ci, iMcuRowNum, yoffset, c, yindex);
        RowRoom(p, k, yindex);
        BlockAbove(p, ci, iMcuRowNum, yoffset, yindex, c, before);
        Distribute(yindex, 1, w);
        GatherRow(p, iMcuRowNum, ci, a, mcuBuffer, blkn, yoffset, yindex, c);
        assert mcuBuffer[..blkn + w] == mcuBuffer[..blkn] + mcuBuffer[blkn..blkn + w];
        blkn := blkn + w;
        yindex := yindex + 1;
      }
    }

    /** The MCU at (yoffset, c), taken from the virtual arrays. */
    method GatherMcu(yoffset: nat, c: nat) returns (blkn: nat)
      requires Valid() && Allocated() && Filled(iMcuRowNum + 1)
      requires iMcuRowNum < p.totalRows && c < McusPerRow(p) && yoffset < mcuRowsPerIMcuRow
      modifies mcuBuffer
      ensures blkn <= C_MAX_BLOCKS_IN_MCU && mcuBuffer[..blkn] == McuAt(p, iMcuRowNum, yoffset, c)
    {
      hide McuBlocks, CompBlocks, RowBlocks, McuAt, McuBlock, BlocksBefore, McuWidth, McuHeight, PictureOk, RowsPer,
        RealRows, ArrayFilled;
      blkn := 0;
      var k := 0;
      McuStart(p, iMcuRowNum, yoffset, c);
      while k < |p.scan|
        invariant k <= |p.scan| && blkn == BlocksBefore(p, k) <= C_MAX_BLOCKS_IN_MCU
        invariant mcuBuffer[..blkn] == McuBlocks(p, iMcuRowNum, yoffset, c, k)
      {
        McuStep(p, iMcuRowNum, yoffset, c, k);
        blkn := GatherComponent(k, wholeImage[p.scan[k]], blkn, yoffset, c);
        k := k + 1;
      }
    }

    /** One MCU row of compress_output; when the encoder does not take an MCU, the counters say which. */
    method OutputRow(sink: McuSink, yoffset: nat, ghost was: Entry) returns (ok: bool)
      requires Valid() && iMcuRowNum < p.totalRows && yoffset < mcuRowsPerIMcuRow
      requires Allocated() && Filled(iMcuRowNum + 1) && Running(sink, p, iMcuRowNum, yoffset, mcuCtr, was)
      modifies `mcuCtr, `mcuVertOffset, mcuBuffer, sink, sink.enc, sink.enc.dest, sink.enc.dest.buffer
      ensures Valid()
      ensures ok ==> mcuCtr == 0 && mcuVertOffset == old(mcuVertOffset)
      ensures ok ==> Running(sink, p, iMcuRowNum, yoffset + 1, 0, was)
      ensures !ok ==> Stopped(sink, p, iMcuRowNum, mcuVertOffset, mcuCtr, was)
    {
      hide Sent, McuAt, PictureOk, RowsPer, Running, Stopped, ArrayFilled;
      var c := mcuCtr;
      while c < McusPerRow(p)
        invariant Valid() && c <= McusPerRow(p) && mcuCtr == old(mcuCtr) && mcuVertOffset == old(mcuVertOffset)
        invariant Running(sink, p, iMcuRowNum, yoffset, c, was)
      {
        var n := GatherMcu(yoffset, c);
        ok := HandOver(p, iMcuRowNum, yoffset, c, sink, mcuBuffer, n, was);
        if !ok {
          mcuVertOffset := yoffset;
          mcuCtr := c;
          return;
        }
        c := c + 1;
      }
      RowEnd(sink, p, iMcuRowNum, yoffset, was);
      mcuCtr := 0;
      ok := true;
    }

    /** Later passes: as much as one iMCU row, from the virtual arrays. Returns false when the entropy encoder
        suspended. */
    method CompressOutput(sink: McuSink) returns (done: bool)
      requires Valid() && Allocated() && iMcuRowNum < p.totalRows && Filled(iMcuRowNum + 1)
      requires Linked(sink) && !sink.failed
      modifies `iMcuRowNum, `mcuCtr, `mcuVertOffset, `mcuRowsPerIMcuRow, mcuBuffer
      modifies sink, sink.enc, sink.enc.dest, sink.enc.dest.buffer
      ensures Valid() && Linked(sink) && sink.enc.tables == old(sink.enc.tables) && (done ==> !sink.failed)
      ensures iMcuRowNum == old(iMcuRowNum) + (if done then 1 else 0)
      ensures sink.suspensions == old(sink.suspensions) + (if done || sink.failed then 0 else 1)
      ensures old(sink.log) <= sink.log
      ensures !done && !sink.failed && sink.log == old(sink.log) ==>
        sink.enc.dest.suspending && old(sink.enc.dest.free) <= MAX_MCU_BYTES
    {
      hide Sent, McuAt, PictureOk, RowsPer, Running, Stopped, Linked, ArrayFilled;
      var yoffset := mcuVertOffset;
      ghost var was := Found(sink);
      StartRunning(sink, was);
      while yoffset < mcuRowsPerIMcuRow
        invariant Valid() && iMcuRowNum == old(iMcuRowNum) && yoffset <= mcuRowsPerIMcuRow
        invariant yoffset == mcuRowsPerIMcuRow ==> mcuCtr == 0
        invariant Running(sink, p, iMcuRowNum, yoffset, mcuCtr, was)
      {
        var ok := OutputRow(sink, yoffset, was);
        if !ok {
          StoppedLinked(sink, was);
          return false;
        }
        yoffset := yoffset + 1;
      }
      NextRow(sink, was);
      return true;
    }

    /** The first of several passes: stores the strip of every component, then emits from the arrays. */
    method CompressFirstPass(sink: McuSink) returns (done: bool)
      requires Valid() && Allocated() && iMcuRowNum < p.totalRows && Filled(iMcuRowNum)
      requires Linked(sink) && !sink.failed
      modifies `iMcuRowNum, `mcuCtr, `mcuVertOffset, `mcuRowsPerIMcuRow, mcuBuffer, wholeImage
      modifies sink, sink.enc, sink.enc.dest, sink.enc.dest.buffer
      ensures Valid() && Filled(old(iMcuRowNum) + 1)
      ensures Valid() && Linked(sink) && sink.enc.tables == old(sink.enc.tables) && (done ==> !sink.failed)
      ensures iMcuRowNum == old(iMcuRowNum) + (if done then 1 else 0)
      ensures sink.suspensions == old(sink.suspensions) + (if done || sink.failed then 0 else 1)
      ensures old(sink.log) <= sink.log
      ensures !done && !sink.failed && sink.log == old(sink.log) ==>
        sink.enc.dest.suspending && old(sink.enc.dest.free) <= MAX_MCU_BYTES
    {
      hide Sent, PictureOk, RowsPer, ArrayFilled, Linked;
      var ci := 0;
      while ci < |p.comps|
        modifies wholeImage
        invariant ci <= |p.comps| && Valid() && iMcuRowNum == old(iMcuRowNum) && Linked(sink)
        invariant forall k: nat :: k < ci ==> ArrayFilled(wholeImage[k], p, k, (iMcuRowNum + 1) * p.comps[k].v)
        invariant forall k: nat :: ci <= k < |p.comps| ==> ArrayFilled(wholeImage[k], p, k, iMcuRowNum * p.comps[k].v)
      {
        StoreStrip(p, iMcuRowNum, ci, wholeImage[ci]);
        ci := ci + 1;
      }
      done := CompressOutput(sink);
    }

    // ---- whole passes ----

    /** What the buffer mode needs: no virtual arrays, or arrays that hold what this pass is going to emit. */
    ghost predicate Ready()
      requires Valid() && Allocated()
      reads this, wholeImage
    {
      match mode
      case PassThru => wholeImage == []
      case SaveAndPass => Filled(iMcuRowNum)
      case CrankDest => Filled(p.totalRows)
    }

    /** start_pass_coef, for a scan over the given components. Returns false for JERR_BAD_BUFFER_MODE. */
    method StartPass(passMode: PassMode, scan: seq<nat>) returns (ok: bool)
      requires Valid() && Allocated() && (passMode == CrankDest && wholeImage != [] ==> Filled(p.totalRows))
      requires PictureOk(p.(scan := scan))
      modifies this
      ensures Valid() && Allocated() && p == old(p).(scan := scan)
      ensures Progress() == [] && ok == (passMode.PassThru? == (wholeImage == []))
      ensures ok ==> mode == passMode && Ready() && iMcuRowNum == 0 && mcuVertOffset == 0 && mcuCtr == 0
    {
      FilledForAll(scan);
      PictureComps(p.(scan := scan));
      p := p.(scan := scan);
      iMcuRowNum := 0;
      StartIMcuRow();
      SentStep(p, 0, 0, 0);
      if passMode.PassThru? != (wholeImage == []) { return false; }
      mode := passMode;
      return true;
    }

    /** One call through the compress_data method pointer. */
    method ProcessRow(sink: McuSink) returns (done: bool)
      requires Valid() && Allocated() && Ready() && iMcuRowNum < p.totalRows && Linked(sink) && !sink.failed
      modifies `iMcuRowNum, `mcuCtr, `mcuVertOffset, `mcuRowsPerIMcuRow, mcuBuffer, wholeImage
      modifies sink, sink.enc, sink.enc.dest, sink.enc.dest.buffer
      ensures Valid() && Allocated() && Ready()
      ensures Valid() && Linked(sink) && sink.enc.tables == old(sink.enc.tables) && (done ==> !sink.failed)
      ensures iMcuRowNum == old(iMcuRowNum) + (if done then 1 else 0)
      ensures sink.suspensions == old(sink.suspensions) + (if done || sink.failed then 0 else 1)
      ensures old(sink.log) <= sink.log
      ensures !done && !sink.failed && sink.log == old(sink.log) ==>
        sink.enc.dest.suspending && old(sink.enc.dest.free) <= MAX_MCU_BYTES
    {
      hide Sent, PictureOk, RowsPer, ArrayFilled, Linked;
      match mode {
        case PassThru =>
          done := CompressData(sink);
        case SaveAndPass =>
          done := CompressFirstPass(sink);
          FilledLess(old(iMcuRowNum), old(iMcuRowNum) + 1);
        case CrankDest =>
          FilledLess(iMcuRowNum + 1, p.totalRows);
          done := CompressOutput(sink);
      }
    }

    /** What the arrays hold does not depend on the scan. */
    lemma FilledForAll(scan: seq<nat>)
      requires Shape() && Allocated()
      ensures forall k: nat, n: nat :: k < |wholeImage| && CompOk(p, k) && ArrayFilled(wholeImage[k], p, k, n) ==>
        CompOk(p.(scan := scan), k) && ArrayFilled(wholeImage[k], p.(scan := scan), k, n)
    {
      hide PaddedBlock;
      forall k: nat, r: nat, x: nat | CompOk(p, k)
        ensures CompOk(p.(scan := scan), k) && Cell(p.(scan := scan), k, r, x) == Cell(p, k, r, x)
      {
        PaddedForAll(p, scan, k, r / p.comps[k].v, r % p.comps[k].v, x);
      }
    }

    lemma FilledLess(m: nat, n: nat)
      requires Shape() && Allocated() && Filled(n) && m <= n
      ensures Filled(m)
    {
      forall ci: nat | ci < |wholeImage| ensures ArrayFilled(wholeImage[ci], p, ci, m * p.comps[ci].v) {
        MulMono(m, n, p.comps[ci].v);
      }
    }

    /** A pass after i actions, n of them offers: calls are counted by rows and suspensions, and they make progress if
        the application is patient. */
    ghost predicate Going(sink: McuSink, script: seq<Action>, i: nat, n: nat, was: Entry)
      requires Valid() && Allocated() && i <= |script|
      reads this, wholeImage, sink, sink.enc, sink.enc.dest, sink.enc.dest.buffer
    {
      && Ready() && Linked(sink) && sink.enc.tables == was.tables && sink.suspensions >= was.suspensions
      && (sink.failed ==> iMcuRowNum < p.totalRows)
      && (!sink.failed && iMcuRowNum < p.totalRows ==> n == iMcuRowNum + (sink.suspensions - was.suspensions))
      && (!sink.failed && i > 0 && script[i - 1] == MakeRoom ==> sink.enc.dest.free == sink.enc.dest.buffer.Length)
      && (!sink.failed && iMcuRowNum < p.totalRows && Advancing(script, sink.enc.dest) ==> |sink.log| >= n)
    }

    /** One more call, unless the pass is over. */
    method OfferRow(sink: McuSink, script: seq<Action>, i: nat, ghost n: nat, ghost was: Entry)
      requires Valid() && Allocated() && i < |script| && script[i] == Offer && Going(sink, script, i, n, was)
      modifies `iMcuRowNum, `mcuCtr, `mcuVertOffset, `mcuRowsPerIMcuRow, mcuBuffer, wholeImage
      modifies sink, sink.enc, sink.enc.dest, sink.enc.dest.buffer
      ensures Valid() && Allocated() && Going(sink, script, i + 1, n + 1, was)
    {
      hide Sent, Rows, PictureOk, CompsOk, RowsPer, ArrayFilled, Linked, Allocated, Ready, Filled;
      if !sink.failed && iMcuRowNum < p.totalRows {
        ghost var was := Found(sink);
        ghost var row, y, c := iMcuRowNum, mcuVertOffset, mcuCtr;
        LinkedLog(sink);
        var done := ProcessRow(sink);
        LinkedLog(sink);
        if done { SentLonger(p, row, y, c, mcuVertOffset, mcuCtr); }
      }
    }

    lemma LinkedLog(sink: McuSink)
      requires Valid() && Linked(sink)
      ensures sink.log == Sent(p, iMcuRowNum, mcuVertOffset, mcuCtr)
    {
      hide Sent, ConfigFor, McuSink.Valid, PictureOk, CompsOk;
    }

    /** Room is made between two calls. */
    method EmptyBuffer(sink: McuSink, script: seq<Action>, i: nat, ghost n: nat, ghost was: Entry)
      requires Valid() && Allocated() && i < |script| && script[i] == MakeRoom && Going(sink, script, i, n, was)
      modifies sink.enc.dest
      ensures Valid() && Allocated() && Going(sink, script, i + 1, n, was)
    {
      hide Sent, Rows, PictureOk, CompsOk, RowsPer, ArrayFilled, Allocated, Ready, Filled, ConfigFor, McuSink.Valid;
      if !sink.failed { sink.MakeRoom(); }
    }

    method RunCalls(sink: McuSink, script: seq<Action>, ghost was: Entry)
      requires Valid() && Allocated() && Going(sink, script, 0, 0, was)
      modifies `iMcuRowNum, `mcuCtr, `mcuVertOffset, `mcuRowsPerIMcuRow, mcuBuffer, wholeImage
      modifies sink, sink.enc, sink.enc.dest, sink.enc.dest.buffer
      ensures Valid() && Allocated() && Going(sink, script, |script|, Offers(script), was)
    {
      hide Sent, Rows, PictureOk, CompsOk, RowsPer, ArrayFilled, Allocated, Filled, ConfigFor, Going;
      ghost var n := 0;
      for i := 0 to |script|
        invariant Valid() && Allocated() && Going(sink, script, i, n, was) && n + Offers(script[i..]) == Offers(script)
      {
        if script[i] == Offer {
          OfferRow(sink, script, i, n, was);
          n := n + 1;
        } else {
          EmptyBuffer(sink, script, i, n, was);
        }
      }
    }

    /** A pass over some components in which the entropy encoder may suspend at any MCU, over any number of calls.
        Whatever the mode, the MCUs handed over are always an initial part of the scan, each once; they are the whole
        scan when all rows are done, which takes one call for every row and one for every suspension. If the encoder
        fails, the scan cannot be written; if not, enough calls do all rows, provided that a suspending destination is
        emptied before each call and longer than any MCU. */
    method RunPass(passMode: PassMode, scan: seq<nat>, sink: McuSink, script: seq<Action>) returns (ok: bool)
      requires Valid() && Allocated() && (passMode == CrankDest && wholeImage != [] ==> Filled(p.totalRows))
      requires PictureOk(p.(scan := scan)) && ConfigFor(p.(scan := scan), sink.enc.cfg)
      requires sink.Valid() && sink.log == [] && !sink.failed
      modifies this, mcuBuffer, wholeImage, sink, sink.enc, sink.enc.dest, sink.enc.dest.buffer
      ensures Valid() && Allocated() && p == old(p).(scan := scan) && ok == (passMode.PassThru? == (wholeImage == []))
      ensures sink.Valid() && sink.enc.tables == old(sink.enc.tables)
      ensures !ok ==> sink.log == []
      ensures ok ==> sink.log == Sent(p, iMcuRowNum, mcuVertOffset, mcuCtr) <= Rows(p, p.totalRows)
      ensures ok && iMcuRowNum == p.totalRows ==> sink.log == Rows(p, p.totalRows) && !sink.failed
      ensures ok && sink.failed ==>
        && McusOk(sink.enc.cfg, Rows(p, p.totalRows))
        && !ScanDecoder.TraceWritable(sink.enc.tables,
                                      ScanTrace(sink.enc.cfg, StartState(sink.enc.cfg), Rows(p, p.totalRows)))
      ensures ok && !sink.failed && iMcuRowNum < p.totalRows ==>
        Offers(script) == iMcuRowNum + (sink.suspensions - old(sink.suspensions))
      ensures Patient(script, |Rows(p, p.totalRows)|, sink.enc.dest.suspending, sink.enc.dest.buffer.Length) ==>
        ok && !sink.failed ==> iMcuRowNum == p.totalRows
      ensures ok && iMcuRowNum == p.totalRows && wholeImage != [] ==> Filled(p.totalRows)
      ensures ok && !sink.failed && script != [] && script[|script| - 1] == MakeRoom ==>
        sink.enc.dest.free == sink.enc.dest.buffer.Length
    {
      hide Sent, Rows, PictureOk, CompsOk, RowsPer, ArrayFilled, Allocated, Filled, ConfigFor, Going;
      ghost var was := Found(sink);
      ok := StartPass(passMode, scan);
      if ok {
        StartGoing(sink, script, was);
        RunCalls(sink, script, was);
        PassEnd(sink, script, was);
      }
    }

    lemma {:induction false} StartGoing(sink: McuSink, script: seq<Action>, was: Entry)
      requires Valid() && Allocated() && Ready() && iMcuRowNum == 0 && mcuVertOffset == 0 && mcuCtr == 0
      requires ConfigFor(p, sink.enc.cfg) && sink.Valid() && sink.log == [] && !sink.failed && was == Found(sink)
      ensures Going(sink, script, 0, 0, was)
    {
      hide PictureOk, CompsOk, ArrayFilled, Allocated, Ready, Filled, ConfigFor, McuSink.Valid, Rows;
      SentStep(p, 0, 0, 0);
    }

    lemma {:induction false} PassEnd(sink: McuSink, script: seq<Action>, was: Entry)
      requires Valid() && Allocated() && Going(sink, script, |script|, Offers(script), was)
      ensures sink.Valid() && sink.enc.tables == was.tables
      ensures sink.log == Sent(p, iMcuRowNum, mcuVertOffset, mcuCtr) <= Rows(p, p.totalRows)
      ensures iMcuRowNum == p.totalRows ==> sink.log == Rows(p, p.totalRows) && !sink.failed
      ensures sink.failed ==>
        && McusOk(sink.enc.cfg, Rows(p, p.totalRows))
        && !ScanDecoder.TraceWritable(sink.enc.tables,
                                      ScanTrace(sink.enc.cfg, StartState(sink.enc.cfg), Rows(p, p.totalRows)))
      ensures !sink.failed && iMcuRowNum < p.totalRows ==>
        Offers(script) == iMcuRowNum + (sink.suspensions - was.suspensions)
      ensures Patient(script, |Rows(p, p.totalRows)|, sink.enc.dest.suspending, sink.enc.dest.buffer.Length) ==>
        !sink.failed ==> iMcuRowNum == p.totalRows
      ensures mode != PassThru && iMcuRowNum == p.totalRows ==> Filled(p.totalRows)
      ensures !sink.failed && script != [] && script[|script| - 1] == MakeRoom ==>
        sink.enc.dest.free == sink.enc.dest.buffer.Length
    {
      hide Sent, Rows, PictureOk, CompsOk, RowsPer, ArrayFilled, Allocated, Filled, ConfigFor, McuSink.Valid;
      SentWithin(p, iMcuRowNum, mcuVertOffset, mcuCtr);
      if iMcuRowNum < p.totalRows { SentNext(p, iMcuRowNum, mcuVertOffset, mcuCtr); }
      if sink.failed { FailedLink(sink); }
    }

    lemma FailedLink(sink: McuSink)
      requires Valid() && Linked(sink) && sink.failed && iMcuRowNum < p.totalRows
      ensures ConfigOk(sink.enc.cfg) && TablesOk(sink.enc.tables)
      ensures McusOk(sink.enc.cfg, Rows(p, p.totalRows))
      ensures !ScanDecoder.TraceWritable(sink.enc.tables,
                                         ScanTrace(sink.enc.cfg, StartState(sink.enc.cfg), Rows(p, p.totalRows)))
    {
      hide Sent, Rows, PictureOk, CompsOk, RowsPer, ConfigFor, ConfigOk, TablesOk, McusOk, NotWritable,
        EntropyEncoder.Progress, ScanTrace, ScanDecoder.TraceWritable;
      FailedScan(p, iMcuRowNum, mcuVertOffset, mcuCtr, sink.enc.cfg, sink.enc.tables);
    }
  }

  /** A failure at the next MCU is an error of the scan. */
  lemma FailedScan(p: Picture, row: nat, y: nat, c: nat, cfg: ScanConfig, t: Tables)
    requires CompsOk(p) && row < p.totalRows && y < RowsPer(p, row) && c < McusPerRow(p)
    requires ConfigFor(p, cfg) && ConfigOk(cfg) && TablesOk(t)
    requires McusOk(cfg, Sent(p, row, y, c + 1)) && NotWritable(cfg, t, Sent(p, row, y, c + 1))
    ensures McusOk(cfg, Rows(p, p.totalRows))
    ensures !ScanDecoder.TraceWritable(t, ScanTrace(cfg, StartState(cfg), Rows(p, p.totalRows)))
  {
    hide Rows, Before, RowsPer, NotWritable, ConfigFor, ConfigOk, TablesOk, ScanTrace, ScanDecoder.TraceWritable;
    RowsFit(p, cfg, p.totalRows);
    SentNext(p, row, y, c);
    var all, refused := Rows(p, p.totalRows), Sent(p, row, y, c + 1);
    assert all[..|refused|] == refused;
    PrefixNotWritable(cfg, t, all, |refused|);
  }
}
