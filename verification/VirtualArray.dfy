/** The blocks of MCUs, and the virtual arrays that hold the coefficients of an image between passes (jccoefct.c). */
module VirtualArrays {
  import opened Bits
  import opened Symbols
  import opened Pictures

  function ZeroBlock(): Block {
    DcBlock(0)
  }

  lemma WithDc(v: int)
    ensures ZeroBlock()[0 := v] == DcBlock(v)
  {}

  // ---- the blocks of an MCU, step by step ----

  lemma CompStep(p: Picture, ci: nat, row: nat, yoffset: nat, c: nat, n: nat)
    requires CompOk(p, ci)
    ensures CompBlocks(p, ci, row, yoffset, c, 0) == []
    ensures CompBlocks(p, ci, row, yoffset, c, n + 1)
      == CompBlocks(p, ci, row, yoffset, c, n) + RowBlocks(p, ci, row, yoffset + n, c)
  {}

  lemma McuStep(p: Picture, row: nat, yoffset: nat, c: nat, n: nat)
    requires CompsOk(p) && n < |p.scan|
    ensures McuBlocks(p, row, yoffset, c, 0) == []
    ensures var ci := p.scan[n];
      && CompOk(p, ci) && ci in p.scan
      && McuBlocks(p, row, yoffset, c, n + 1)
        == McuBlocks(p, row, yoffset, c, n) + CompBlocks(p, ci, row, yoffset, c, McuHeight(p, ci))
  {}

  /** The MCU buffer is never overrun. */
  lemma {:induction false} BufferRoom(p: Picture, n: nat)
    requires Scanned(p) && n <= |p.scan|
    ensures BlocksBefore(p, n) <= BlocksBefore(p, |p.scan|)
    decreases |p.scan| - n
  {
    if n < |p.scan| { BufferRoom(p, n + 1); }
  }

  lemma RowRoom(p: Picture, k: nat, yindex: nat)
    requires PictureOk(p) && k < |p.scan| && yindex < McuHeight(p, p.scan[k])
    ensures var w := McuWidth(p, p.scan[k]); BlocksBefore(p, k) + yindex * w + w <= C_MAX_BLOCKS_IN_MCU
  {
    var ci := p.scan[k];
    BufferRoom(p, k + 1);
    MulMono(yindex + 1, McuHeight(p, ci), McuWidth(p, ci));
    Distribute(yindex, 1, McuWidth(p, ci));
    Commute(McuHeight(p, ci), McuWidth(p, ci));
  }

  lemma Commute(a: int, b: int)
    ensures a * b == b * a
  {}

  /** DCTSIZE times the block position is the sample position. */
  lemma SamplePosition(c: nat, w: nat, i: nat)
    ensures c * (w * DCTSIZE) + DCTSIZE * i == DCTSIZE * (c * w + i)
  {
    assert c * (w * DCTSIZE) == (c * w) * DCTSIZE;
  }

  lemma WidthPositive(p: Picture, ci: nat)
    requires CompOk(p, ci)
    ensures McuWidth(p, ci) > 0
  {}

  lemma RealRowBlock(p: Picture, ci: nat, row: nat, y: nat, c: nat, xi: nat)
    requires PictureOk(p) && CompOk(p, ci) && ci in p.scan && y < RealRows(p, ci, row)
    requires c < McusPerRow(p) && xi < McuWidth(p, ci)
    ensures 0 < BlockCount(p, ci, c) <= McuWidth(p, ci)
    ensures xi < BlockCount(p, ci, c) ==>
      McuBlock(p, ci, row, y, c, xi) == p.dct(row, ci, y * DCTSIZE, c * (McuWidth(p, ci) * DCTSIZE) + DCTSIZE * xi)
    ensures xi >= BlockCount(p, ci, c) ==>
      McuBlock(p, ci, row, y, c, xi)
        == DcBlock(p.dct(row, ci, y * DCTSIZE,
          c * (McuWidth(p, ci) * DCTSIZE) + DCTSIZE * (BlockCount(p, ci, c) - 1))[0])
  {
    hide DcBlock, McuWidth, BlockCount, BlocksBefore, Groups;
    RealColumns(p, ci, c, xi);
    SamplePosition(c, McuWidth(p, ci), xi);
    SamplePosition(c, McuWidth(p, ci), BlockCount(p, ci, c) - 1);
  }

  lemma BottomRowBlock(p: Picture, ci: nat, row: nat, y: nat, c: nat, xi: nat)
    requires CompOk(p, ci) && Interleaved(p) && xi < McuWidth(p, ci) && y >= RealRows(p, ci, row)
    ensures McuBlock(p, ci, row, y, c, xi) == DcBlock(McuBlock(p, ci, row, y - 1, c, McuWidth(p, ci) - 1)[0])
  {
    LastOfMcu(c, p.comps[ci].h, xi);
  }

  lemma McuStart(p: Picture, row: nat, yoffset: nat, c: nat)
    requires CompsOk(p)
    ensures BlocksBefore(p, 0) == 0 && McuBlocks(p, row, yoffset, c, 0) == []
    ensures McuAt(p, row, yoffset, c) == McuBlocks(p, row, yoffset, c, |p.scan|)
  {}

  lemma InScan(p: Picture, k: nat)
    requires CompsOk(p) && k < |p.scan|
    ensures p.scan[k] in p.scan && CompOk(p, p.scan[k])
  {}

  lemma BlocksBeforeStep(p: Picture, k: nat)
    requires Scanned(p) && k < |p.scan|
    ensures var ci := p.scan[k]; BlocksBefore(p, k + 1) == BlocksBefore(p, k) + McuHeight(p, ci) * McuWidth(p, ci)
  {
    Commute(McuHeight(p, p.scan[k]), McuWidth(p, p.scan[k]));
  }

  /** Only an interleaved scan has dummy rows, and never as the first row of a component. */
  lemma BlockAbove(p: Picture, ci: nat, row: nat, yoffset: nat, yindex: nat, c: nat, before: seq<Block>)
    requires CompsOk(p) && CompOk(p, ci) && ci in p.scan && yoffset < RowsPer(p, row) && yindex < McuHeight(p, ci)
    ensures yoffset + yindex < p.comps[ci].v
    ensures yoffset + yindex >= RealRows(p, ci, row) ==>
      var buf := before + CompBlocks(p, ci, row, yoffset, c, yindex);
      && Interleaved(p) && |buf| > 0
      && buf[|buf| - 1] == McuBlock(p, ci, row, yoffset + yindex - 1, c, McuWidth(p, ci) - 1)
  {
    hide McuBlock;
    if yindex > 0 {
      hide CompBlocks;
      CompStep(p, ci, row, yoffset, c, yindex - 1);
    }
  }

  /** jround_up */
  function RoundUp(a: nat, b: nat): (r: nat)
    requires b > 0
  {
    (a + b - 1) - (a + b - 1) % b
  }

  /** A virtual array is padded to whole MCUs in both directions. */
  ghost predicate ArrayOk(a: array2<Block>, p: Picture, ci: nat) {
    && CompOk(p, ci)
    && a.Length0 == RoundUp(p.comps[ci].heightInBlocks, p.comps[ci].v)
    && a.Length1 == RoundUp(p.comps[ci].widthInBlocks, p.comps[ci].h)
  }

  /** Block x of absolute block row r of a component. */
  ghost function Cell(p: Picture, ci: nat, r: nat, x: nat): Block
    requires CompOk(p, ci)
  {
    PaddedBlock(p, ci, r / p.comps[ci].v, r % p.comps[ci].v, x)
  }

  /** Row r of a virtual array holds block row y of iMCU row row. */
  ghost predicate RowHolds(a: array2<Block>, p: Picture, ci: nat, r: nat, row: nat, y: nat)
    requires CompOk(p, ci)
    reads a
  {
    r < a.Length0 && forall x: nat :: x < a.Length1 ==> a[r, x] == PaddedBlock(p, ci, row, y, x)
  }

  /** The first n block rows of a virtual array hold the padded component. */
  ghost predicate ArrayFilled(a: array2<Block>, p: Picture, ci: nat, n: nat)
    requires CompOk(p, ci)
    reads a
  {
    n <= a.Length0
    && forall r: nat, x: nat :: r < n && x < a.Length1 ==> a[r, x] == Cell(p, ci, r, x)
  }

  lemma RowOfFilled(a: array2<Block>, p: Picture, ci: nat, n: nat, row: nat, y: nat)
    requires CompOk(p, ci) && y < p.comps[ci].v && row * p.comps[ci].v + y < n && ArrayFilled(a, p, ci, n)
    ensures RowHolds(a, p, ci, row * p.comps[ci].v + y, row, y)
  {
    hide PaddedBlock, Cell;
    var r := row * p.comps[ci].v + y;
    forall x: nat | x < a.Length1 ensures a[r, x] == PaddedBlock(p, ci, row, y, x) { CellAt(p, ci, row, y, x); }
  }

  lemma FilledStep(a: array2<Block>, p: Picture, ci: nat, row: nat, y: nat)
    requires CompOk(p, ci) && y < p.comps[ci].v
    requires ArrayFilled(a, p, ci, row * p.comps[ci].v + y) && RowHolds(a, p, ci, row * p.comps[ci].v + y, row, y)
    ensures ArrayFilled(a, p, ci, row * p.comps[ci].v + y + 1)
  {
    hide PaddedBlock, Cell;
    var n := row * p.comps[ci].v + y;
    forall r: nat, x: nat | r < n + 1 && x < a.Length1 ensures a[r, x] == Cell(p, ci, r, x) {
      if r == n { CellAt(p, ci, row, y, x); }
    }
  }

  lemma RoundUpGroups(n: nat, f: nat, k: nat)
    requires Groups(n, f, k)
    ensures RoundUp(n, f) == k * f
  {
    Distribute(k - 1, 1, f);
    assert n + f - 1 == k * f + (n - (k - 1) * f - 1);
    DivModUnique(n + f - 1, f, k, n - (k - 1) * f - 1);
  }

  /** The padded width, as jround_up and as compress_first_pass compute it. */
  lemma PaddedWidth(n: nat, f: nat)
    requires f > 0
    ensures var ndummy := if n % f > 0 then f - n % f else 0;
      RoundUp(n, f) == n + ndummy == (n + ndummy) / f * f
  {
    var q, r := n / f, n % f;
    assert n == q * f + r;
    Distribute(q, 1, f);
    if r > 0 {
      DivModUnique(n + f - 1, f, q + 1, r - 1);
      DivModUnique(n + (f - r), f, q + 1, 0);
    } else {
      DivModUnique(n + f - 1, f, q, f - 1);
    }
  }

  /** Blocks of an MCU lie inside the padded array. */
  lemma ColumnRoom(p: Picture, ci: nat, c: nat, xi: nat)
    requires PictureOk(p) && CompOk(p, ci) && ci in p.scan && c < McusPerRow(p) && xi < McuWidth(p, ci)
    ensures c * McuWidth(p, ci) + xi < RoundUp(p.comps[ci].widthInBlocks, p.comps[ci].h)
  {
    assert ComponentOk(p, ci);
    var comp := p.comps[ci];
    if Interleaved(p) {
      RoundUpGroups(comp.widthInBlocks, comp.h, p.mcusAcross);
      MulMono(c + 1, p.mcusAcross, comp.h);
      Distribute(c, 1, comp.h);
    } else {
      PaddedWidth(comp.widthInBlocks, comp.h);
    }
  }

  /** A block of an MCU in its virtual array. */
  lemma McuCell(a: array2<Block>, p: Picture, ci: nat, r: nat, row: nat, y: nat, c: nat, xi: nat)
    requires PictureOk(p) && ArrayOk(a, p, ci) && ci in p.scan && c < McusPerRow(p) && xi < McuWidth(p, ci)
    requires RowHolds(a, p, ci, r, row, y)
    ensures r < a.Length0 && c * McuWidth(p, ci) + xi < a.Length1
    ensures a[r, c * McuWidth(p, ci) + xi] == McuBlock(p, ci, row, y, c, xi)
  {
    hide PaddedBlock, McuWidth, RoundUp, BlocksBefore;
    ColumnRoom(p, ci, c, xi);
  }

  /** A row of blocks of an MCU in its virtual array. */
  lemma RowCells(p: Picture, ci: nat, a: array2<Block>, r: nat, row: nat, y: nat, c: nat)
    requires PictureOk(p) && ArrayOk(a, p, ci) && ci in p.scan && c < McusPerRow(p) && row < p.totalRows
    requires y < p.comps[ci].v && r == row * p.comps[ci].v + y
    requires ArrayFilled(a, p, ci, (row + 1) * p.comps[ci].v)
    ensures r < a.Length0 && c * McuWidth(p, ci) + McuWidth(p, ci) <= a.Length1
    ensures forall i: nat :: i < McuWidth(p, ci) ==>
      a[r, c * McuWidth(p, ci) + i] == RowBlocks(p, ci, row, y, c)[i]
  {
    hide PaddedBlock, McuWidth, RoundUp, RowHolds, ArrayFilled, BlocksBefore, McuBlock;
    StripRoom(p, ci, row, y);
    RowOfFilled(a, p, ci, (row + 1) * p.comps[ci].v, row, y);
    WidthPositive(p, ci);
    McuCell(a, p, ci, r, row, y, c, McuWidth(p, ci) - 1);
    forall i: nat | i < McuWidth(p, ci)
      ensures a[r, c * McuWidth(p, ci) + i] == RowBlocks(p, ci, row, y, c)[i]
    {
      McuCell(a, p, ci, r, row, y, c, i);
    }
  }

  lemma StripRoom(p: Picture, ci: nat, row: nat, y: nat)
    requires PictureOk(p) && CompOk(p, ci) && row < p.totalRows && y < p.comps[ci].v
    ensures row * p.comps[ci].v + y < RoundUp(p.comps[ci].heightInBlocks, p.comps[ci].v)
    ensures (row + 1) * p.comps[ci].v == row * p.comps[ci].v + p.comps[ci].v
  {
    assert ComponentOk(p, ci);
    RoundUpGroups(p.comps[ci].heightInBlocks, p.comps[ci].v, p.totalRows);
    MulMono(row + 1, p.totalRows, p.comps[ci].v);
    Distribute(row, 1, p.comps[ci].v);
  }

  lemma CellAt(p: Picture, ci: nat, row: nat, y: nat, x: nat)
    requires CompOk(p, ci) && y < p.comps[ci].v
    ensures Cell(p, ci, row * p.comps[ci].v + y, x) == PaddedBlock(p, ci, row, y, x)
  {
    DivModUnique(row * p.comps[ci].v + y, p.comps[ci].v, row, y);
  }

  // ---- the strips of the virtual arrays ----

  /** forward_DCT into a row of a virtual array, from sample column 0 on. */
  method ForwardDctRow(p: Picture, row: nat, a: array2<Block>, ci: nat, r: nat, ypos: nat, count: nat)
    requires r < a.Length0 && count <= a.Length1
    modifies a
    ensures forall x: nat :: x < count ==> a[r, x] == p.dct(row, ci, ypos, DCTSIZE * x)
    ensures forall k: nat, x: nat :: k < a.Length0 && x < a.Length1 && !(k == r && x < count) ==>
      a[k, x] == old(a[k, x])
  {
    forall x: nat | x < count { a[r, x] := p.dct(row, ci, ypos, DCTSIZE * x); }
  }

  /** jzero_far on part of a row. */
  method ZeroRow(a: array2<Block>, r: nat, from: nat, to: nat)
    requires r < a.Length0 && from <= to <= a.Length1
    modifies a
    ensures forall x: nat :: from <= x < to ==> a[r, x] == ZeroBlock()
    ensures forall k: nat, x: nat :: k < a.Length0 && x < a.Length1 && !(k == r && from <= x < to) ==>
      a[k, x] == old(a[k, x])
  {
    forall x: nat | from <= x < to { a[r, x] := ZeroBlock(); }
  }

  /** DC values of a stretch of zero blocks. */
  method SetDc(a: array2<Block>, r: nat, from: nat, n: nat, lastDc: int)
    requires r < a.Length0 && from + n <= a.Length1
    requires forall x: nat :: from <= x < from + n ==> a[r, x] == ZeroBlock()
    modifies a
    ensures forall x: nat :: from <= x < from + n ==> a[r, x] == DcBlock(lastDc)
    ensures forall k: nat, x: nat :: k < a.Length0 && x < a.Length1 && !(k == r && from <= x < from + n) ==>
      a[k, x] == old(a[k, x])
  {
    var bi := 0;
    while bi < n
      invariant bi <= n
      invariant forall x: nat :: from <= x < from + bi ==> a[r, x] == DcBlock(lastDc)
      invariant forall x: nat :: from + bi <= x < from + n ==> a[r, x] == ZeroBlock()
      invariant forall k: nat, x: nat :: k < a.Length0 && x < a.Length1 && !(k == r && from <= x < from + n) ==>
        a[k, x] == old(a[k, x])
    {
      WithDc(lastDc);
      a[r, from + bi] := a[r, from + bi][0 := lastDc];
      bi := bi + 1;
    }
  }

  /** A block row inside the image: all its real blocks, and dummy blocks up to a whole MCU. */
  method StoreRealRow(p: Picture, row: nat, a: array2<Block>, ci: nat, y: nat, ndummy: nat)
    requires CompOk(p, ci) && y < RealRows(p, ci, row) && p.comps[ci].widthInBlocks + ndummy == a.Length1
    requires row * p.comps[ci].v + y < a.Length0 && ArrayFilled(a, p, ci, row * p.comps[ci].v + y)
    modifies a
    ensures ArrayFilled(a, p, ci, row * p.comps[ci].v + y + 1)
    ensures forall k: nat, x: nat :: k < a.Length0 && x < a.Length1 && k > row * p.comps[ci].v + y ==>
      a[k, x] == old(a[k, x])
  {
    hide DcBlock, ZeroBlock, Cell;
    var blocksAcross := p.comps[ci].widthInBlocks;
    var r := row * p.comps[ci].v + y;
    ForwardDctRow(p, row, a, ci, r, y * DCTSIZE, blocksAcross);
    if ndummy > 0 {
      ZeroRow(a, r, blocksAcross, blocksAcross + ndummy);
      var lastDc := a[r, blocksAcross - 1][0];
      SetDc(a, r, blocksAcross, ndummy, lastDc);
    }
    assert RowHolds(a, p, ci, r, row, y);
    FilledStep(a, p, ci, row, y);
  }

  /** A block row below the image: within each MCU, the DC value of the last block above. */
  method StoreBottomRow(p: Picture, row: nat, a: array2<Block>, ci: nat, y: nat, mcusAcross: nat)
    requires CompOk(p, ci) && RealRows(p, ci, row) <= y < p.comps[ci].v && mcusAcross * p.comps[ci].h == a.Length1
    requires row * p.comps[ci].v + y < a.Length0 && ArrayFilled(a, p, ci, row * p.comps[ci].v + y)
    modifies a
    ensures ArrayFilled(a, p, ci, row * p.comps[ci].v + y + 1)
    ensures forall k: nat, x: nat :: k < a.Length0 && x < a.Length1 && k > row * p.comps[ci].v + y ==>
      a[k, x] == old(a[k, x])
  {
    hide PaddedBlock, DcBlock, ZeroBlock, Cell, LastInMcu;
    var h := p.comps[ci].h;
    var r := row * p.comps[ci].v + y;
    RowOfFilled(a, p, ci, r, row, y - 1);
    ZeroRow(a, r, 0, a.Length1);
    var mcuIndex, at := 0, 0;
    while mcuIndex < mcusAcross
      invariant mcuIndex <= mcusAcross && at == mcuIndex * h <= a.Length1
      invariant forall x: nat :: x < at ==> a[r, x] == PaddedBlock(p, ci, row, y, x)
      invariant forall x: nat :: at <= x < a.Length1 ==> a[r, x] == ZeroBlock()
      invariant forall k: nat, x: nat :: k < a.Length0 && x < a.Length1 && k != r ==> a[k, x] == old(a[k, x])
    {
      Distribute(mcuIndex, 1, h);
      MulMono(mcuIndex + 1, mcusAcross, h);
      var lastDc := a[r - 1, at + (h - 1)][0];
      SetDc(a, r, at, h, lastDc);
      forall x: nat | at <= x < at + h ensures DcBlock(lastDc) == PaddedBlock(p, ci, row, y, x) {
        LastOfMcu(mcuIndex, h, x - at);
        PaddedBottom(p, ci, row, y, x);
      }
      at := at + h;
      mcuIndex := mcuIndex + 1;
    }
    assert RowHolds(a, p, ci, r, row, y);
    FilledStep(a, p, ci, row, y);
  }

  /** The strip of one component: DCT of its real block rows, then dummy block rows at the end of the image. */
  method StoreStrip(p: Picture, row: nat, ci: nat, a: array2<Block>)
    requires PictureOk(p) && row < p.totalRows && ArrayOk(a, p, ci)
    requires ArrayFilled(a, p, ci, row * p.comps[ci].v)
    modifies a
    ensures ArrayFilled(a, p, ci, (row + 1) * p.comps[ci].v)
    ensures forall k: nat, x: nat :: k < a.Length0 && x < a.Length1 && k >= (row + 1) * p.comps[ci].v ==>
      a[k, x] == old(a[k, x])
  {
    hide PaddedBlock, Cell, RoundUp, PictureOk, RowHolds, ArrayFilled;
    var comp := p.comps[ci];
    var blockRows := comp.v;
    if row >= p.totalRows - 1 {
      blockRows := comp.heightInBlocks % comp.v;
      if blockRows == 0 { blockRows := comp.v; }
    }
    assert blockRows == RealRows(p, ci, row);
    var ndummy := comp.widthInBlocks % comp.h;
    if ndummy > 0 { ndummy := comp.h - ndummy; }
    PaddedWidth(comp.widthInBlocks, comp.h);
    ghost var base := row * comp.v;
    StripRoom(p, ci, row, 0);
    var blockRow := 0;
    while blockRow < blockRows
      invariant blockRow <= blockRows && ArrayFilled(a, p, ci, base + blockRow)
      invariant forall k: nat, x: nat :: k < a.Length0 && x < a.Length1 && k >= base + comp.v ==>
        a[k, x] == old(a[k, x])
    {
      StripRoom(p, ci, row, blockRow);
      StoreRealRow(p, row, a, ci, blockRow, ndummy);
      blockRow := blockRow + 1;
    }
    if row == p.totalRows - 1 {
      var mcusAcross := (comp.widthInBlocks + ndummy) / comp.h;
      while blockRow < comp.v
        invariant blockRows <= blockRow <= comp.v && ArrayFilled(a, p, ci, base + blockRow)
        invariant forall k: nat, x: nat :: k < a.Length0 && x < a.Length1 && k >= base + comp.v ==>
          a[k, x] == old(a[k, x])
      {
        StripRoom(p, ci, row, blockRow);
        StoreBottomRow(p, row, a, ci, blockRow, mcusAcross);
        blockRow := blockRow + 1;
      }
    }
  }

  /** The blocks of one row of an MCU, from a virtual array to the MCU buffer. */
  method TakeRow(a: array2<Block>, r: nat, startCol: nat, buffer: array<Block>, blkn: nat, count: nat,
                 ghost blocks: seq<Block>)
    requires r < a.Length0 && startCol + count <= a.Length1 && blkn + count <= buffer.Length
    requires |blocks| == count && forall i: nat :: i < count ==> a[r, startCol + i] == blocks[i]
    modifies buffer
    ensures buffer[..blkn] == old(buffer[..blkn]) && buffer[blkn..blkn + count] == blocks
  {
    var xindex := 0;
    while xindex < count
      invariant xindex <= count
      invariant buffer[..blkn] == old(buffer[..blkn]) && buffer[blkn..blkn + xindex] == blocks[..xindex]
    {
      buffer[blkn + xindex] := a[r, startCol + xindex];
      xindex := xindex + 1;
    }
  }

  /** One row of blocks of a component in an MCU, taken from its virtual array. */
  method GatherRow(p: Picture, row: nat, ci: nat, a: array2<Block>, buffer: array<Block>, blkn: nat,
                   yoffset: nat, yindex: nat, c: nat)
    requires PictureOk(p) && row < p.totalRows && ArrayOk(a, p, ci) && ci in p.scan && c < McusPerRow(p)
    requires ArrayFilled(a, p, ci, (row + 1) * p.comps[ci].v) && yoffset + yindex < p.comps[ci].v
    requires blkn + McuWidth(p, ci) <= buffer.Length
    modifies buffer
    ensures buffer[..blkn] == old(buffer[..blkn])
    ensures buffer[blkn..blkn + McuWidth(p, ci)] == RowBlocks(p, ci, row, yoffset + yindex, c)
  {
    hide McuBlock, McuWidth, ArrayFilled, RowHolds, RowBlocks, RoundUp, PictureOk;
    ghost var blocks := RowBlocks(p, ci, row, yoffset + yindex, c);
    var r := row * p.comps[ci].v + (yindex + yoffset);
    RowCells(p, ci, a, r, row, yoffset + yindex, c);
    TakeRow(a, r, c * McuWidth(p, ci), buffer, blkn, McuWidth(p, ci), blocks);
  }

  lemma PaddedBottom(p: Picture, ci: nat, row: nat, y: nat, x: nat)
    requires CompOk(p, ci) && y >= RealRows(p, ci, row)
    ensures PaddedBlock(p, ci, row, y, x) == DcBlock(PaddedBlock(p, ci, row, y - 1, LastInMcu(x, p.comps[ci].h))[0])
  {}
}
