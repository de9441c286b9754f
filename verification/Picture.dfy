/** The geometry of an image in DCT blocks, and the MCUs of a scan over some components, dummy blocks included. */
module Pictures {
  import opened Bits
  import opened Symbols
  import opened ZigzagScan

  const DCTSIZE: nat := 8

  /** Sampling factors and size in blocks of one component. */
  datatype Component = Component(h: nat, v: nat, widthInBlocks: nat, heightInBlocks: nat)

  /** The components of an image and those of the current scan, the rows of interleaved MCUs and how many there are in a
      row. dct gives the block that the forward DCT computes for a component from the samples at (ypos, xpos) of the
      strip that makes up one iMCU row. */
  datatype Picture = Picture(comps: seq<Component>, scan: seq<nat>, totalRows: nat, mcusAcross: nat,
                             dct: (nat, nat, nat, nat) -> Block)

  predicate Interleaved(p: Picture) { |p.scan| > 1 }

  /** The scan has components, and these are components of the image. */
  predicate Scanned(p: Picture) {
    |p.scan| > 0 && forall i :: 0 <= i < |p.scan| ==> p.scan[i] < |p.comps|
  }

  function McusPerRow(p: Picture): nat
    requires Scanned(p)
  {
    if Interleaved(p) then p.mcusAcross else p.comps[p.scan[0]].widthInBlocks
  }

  /** Blocks or block rows of the last MCU: the remainder, or the full factor. */
  function Remainder(n: nat, f: nat): (r: nat)
    requires f > 0
    ensures 0 < r <= f
  {
    if n % f == 0 then f else n % f
  }

  // per_scan_setup (jcmaster.c)

  function McuWidth(p: Picture, ci: nat): nat
    requires ci < |p.comps|
  {
    if Interleaved(p) then p.comps[ci].h else 1
  }

  function McuHeight(p: Picture, ci: nat): nat
    requires ci < |p.comps|
  {
    if Interleaved(p) then p.comps[ci].v else 1
  }

  function LastColWidth(p: Picture, ci: nat): nat
    requires ci < |p.comps| && p.comps[ci].h > 0
  {
    if Interleaved(p) then Remainder(p.comps[ci].widthInBlocks, p.comps[ci].h) else 1
  }

  function LastRowHeight(p: Picture, ci: nat): nat
    requires ci < |p.comps| && p.comps[ci].v > 0
  {
    Remainder(p.comps[ci].heightInBlocks, p.comps[ci].v)
  }

  /** MCU rows in iMCU row number row. */
  function RowsPer(p: Picture, row: nat): nat
    requires Scanned(p) && p.comps[p.scan[0]].v > 0
  {
    if Interleaved(p) then 1
    else if row + 1 < p.totalRows then p.comps[p.scan[0]].v
    else LastRowHeight(p, p.scan[0])
  }

  /** Blocks of the first n components of the scan in an MCU. */
  function BlocksBefore(p: Picture, n: nat): nat
    requires Scanned(p) && n <= |p.scan|
  {
    if n == 0 then 0 else BlocksBefore(p, n - 1) + McuWidth(p, p.scan[n - 1]) * McuHeight(p, p.scan[n - 1])
  }

  /** n items in exactly k groups of f, the last group possibly smaller. */
  ghost predicate Groups(n: nat, f: nat, k: nat) {
    f > 0 && k > 0 && (k - 1) * f < n <= k * f
  }

  const MAX_COMPONENTS := 10

  ghost predicate PictureOk(p: Picture) {
    && 1 <= |p.comps| <= MAX_COMPONENTS && p.totalRows > 0 && p.mcusAcross > 0
    && Scanned(p) && |p.scan| <= MAX_COMPS_IN_SCAN && BlocksBefore(p, |p.scan|) <= C_MAX_BLOCKS_IN_MCU
    && forall ci :: 0 <= ci < |p.comps| ==> ComponentOk(p, ci)
  }

  ghost predicate ComponentOk(p: Picture, ci: nat)
    requires ci < |p.comps|
  {
    var c := p.comps[ci];
    && c.h > 0 && c.v > 0 && c.widthInBlocks > 0
    && Groups(c.heightInBlocks, c.v, p.totalRows) && Groups(c.widthInBlocks, c.h, p.mcusAcross)
  }

  function CeilDiv(a: nat, b: nat): nat
    requires b > 0
  {
    (a + b - 1) / b
  }

  /** The setup in jcmaster.c (sizes rounded up to whole blocks and MCUs) always yields such groups. */
  lemma SetupGroups(size: nat, f: nat, max: nat)
    requires size > 0 && 0 < f <= max
    ensures max * 8 > 0
    ensures var n, k := CeilDiv(size * f, max * 8), CeilDiv(size, max * 8);
      k > 0 && (k - 1) * f < n <= k * f
  {
    hide CeilDiv;
    var m := max * 8;
    var k, n := CeilDiv(size, m), CeilDiv(size * f, m);
    CeilBounds(size, m);
    MulAtLeast(size, f);
    CeilBounds(size * f, m);
    ScaleStrict((k - 1) * m, size, f);
    MulMono(size, k * m, f);
    SwapFactors(k - 1, m, f);
    SwapFactors(k, m, f);
    Between(n, (k - 1) * f, k * f, m, size * f);
  }

  lemma SwapFactors(k: int, m: int, f: int)
    ensures k * m * f == k * f * m
  {}

  /** Rounding up is monotone. */
  lemma Between(n: int, low: int, high: int, m: int, x: int)
    requires m > 0 && low * m < x <= high * m && (n - 1) * m < x <= n * m
    ensures low < n <= high
  {
    if n <= low { MulMono(n, low, m); }
    if n > high { MulMono(high, n - 1, m); }
  }

  lemma ScaleStrict(a: int, b: int, f: int)
    requires a < b && f > 0
    ensures a * f < b * f
  {
    assert (b - a) * f >= f by { MulAtLeast(b - a, f); }
  }

  lemma CeilBounds(a: nat, b: nat)
    requires a > 0 && b > 0
    ensures var k := CeilDiv(a, b); k > 0 && (k - 1) * b < a <= k * b
  {
    var k := (a + b - 1) / b;
    var r := (a + b - 1) % b;
    assert a + b - 1 == k * b + r;
    if k <= 0 { MulMono(k, 0, b); assert false; }
    assert (k - 1) * b == k * b - b;
  }

  // ---- the blocks of a picture ----

  ghost predicate CompOk(p: Picture, ci: nat) {
    ci < |p.comps| && p.comps[ci].v > 0 && p.comps[ci].h > 0 && p.comps[ci].widthInBlocks > 0
  }

  /** Real block rows of a component in an iMCU row. */
  function RealRows(p: Picture, ci: nat, row: nat): (n: nat)
    requires ci < |p.comps| && p.comps[ci].v > 0
    ensures 0 < n <= p.comps[ci].v
  {
    if row + 1 < p.totalRows then p.comps[ci].v else LastRowHeight(p, ci)
  }

  function Real(p: Picture, ci: nat, row: nat, y: nat, x: nat): Block {
    p.dct(row, ci, DCTSIZE * y, DCTSIZE * x)
  }

  /** The last block column of the MCU that block column x belongs to. */
  function LastInMcu(x: nat, h: nat): nat
    requires h > 0
  {
    x / h * h + (h - 1)
  }

  /** Block x of block row y of an iMCU row, the component being extended to whole MCUs. Right of the image a block has
      the DC value of the last real block; below the image, that of the last block above it in the same MCU. */
  ghost function PaddedBlock(p: Picture, ci: nat, row: nat, y: nat, x: nat): Block
    requires CompOk(p, ci)
    decreases y
  {
    var comp := p.comps[ci];
    if y < RealRows(p, ci, row) then
      if x < comp.widthInBlocks then Real(p, ci, row, y, x)
      else DcBlock(Real(p, ci, row, y, comp.widthInBlocks - 1)[0])
    else DcBlock(PaddedBlock(p, ci, row, y - 1, LastInMcu(x, comp.h))[0])
  }

  /** Block xi of block row y of the MCU in column c. */
  ghost function McuBlock(p: Picture, ci: nat, row: nat, y: nat, c: nat, xi: nat): Block
    requires CompOk(p, ci)
  {
    PaddedBlock(p, ci, row, y, c * McuWidth(p, ci) + xi)
  }

  /** One row of blocks of a component in an MCU. */
  ghost function RowBlocks(p: Picture, ci: nat, row: nat, y: nat, c: nat): (r: seq<Block>)
    requires CompOk(p, ci)
    ensures |r| == McuWidth(p, ci)
  {
    seq(McuWidth(p, ci), xi requires 0 <= xi => McuBlock(p, ci, row, y, c, xi))
  }

  /** The first n rows of blocks of a component in the MCU at (yoffset, c). */
  ghost function CompBlocks(p: Picture, ci: nat, row: nat, yoffset: nat, c: nat, n: nat): (r: seq<Block>)
    requires CompOk(p, ci)
    ensures |r| == n * McuWidth(p, ci)
  {
    if n == 0 then []
    else
      Distribute(n - 1, 1, McuWidth(p, ci));
      CompBlocks(p, ci, row, yoffset, c, n - 1) + RowBlocks(p, ci, row, yoffset + (n - 1), c)
  }

  ghost predicate CompsOk(p: Picture) {
    Scanned(p) && CompOk(p, p.scan[0]) && forall ci :: 0 <= ci < |p.comps| ==> CompOk(p, ci)
  }

  /** The blocks of the first n components of the scan in the MCU at (yoffset, c). */
  ghost function McuBlocks(p: Picture, row: nat, yoffset: nat, c: nat, n: nat): (r: seq<Block>)
    requires CompsOk(p) && n <= |p.scan|
    ensures |r| == BlocksBefore(p, n)
  {
    if n == 0 then []
    else
      var ci := p.scan[n - 1];
      McuBlocks(p, row, yoffset, c, n - 1) + CompBlocks(p, ci, row, yoffset, c, McuHeight(p, ci))
  }

  /** The MCU at (yoffset, c) of an iMCU row. */
  ghost function McuAt(p: Picture, row: nat, yoffset: nat, c: nat): seq<Block>
    requires CompsOk(p)
  {
    McuBlocks(p, row, yoffset, c, |p.scan|)
  }

  /** The MCUs of an iMCU row in raster order, up to position (yoffset, c). */
  ghost function Before(p: Picture, row: nat, yoffset: nat, c: nat): seq<Mcu>
    requires CompsOk(p)
    decreases yoffset, c
  {
    if c > 0 then Before(p, row, yoffset, c - 1) + [McuAt(p, row, yoffset, c - 1)]
    else if yoffset > 0 then Before(p, row, yoffset - 1, McusPerRow(p))
    else []
  }

  /** All MCUs of the first n iMCU rows. */
  ghost function Rows(p: Picture, n: nat): seq<Mcu>
    requires CompsOk(p)
  {
    if n == 0 then [] else Rows(p, n - 1) + Before(p, n - 1, RowsPer(p, n - 1), 0)
  }

  lemma PictureComps(p: Picture)
    requires PictureOk(p)
    ensures CompsOk(p)
  {
    forall ci: nat | ci < |p.comps| ensures CompOk(p, ci) { assert ComponentOk(p, ci); }
  }

  // ---- geometry ----

  lemma RemainderOfGroups(n: nat, f: nat, k: nat)
    requires Groups(n, f, k)
    ensures n == (k - 1) * f + Remainder(n, f)
  {
    var r := n - (k - 1) * f;
    Distribute(k - 1, 1, f);
    assert k * f == (k - 1) * f + f;
    if r == f {
      DivModUnique(n, f, k, 0);
    } else {
      DivModUnique(n, f, k - 1, r);
    }
  }

  /** Real blocks of a row of an MCU: all of them, or in the last column the remainder. */
  function BlockCount(p: Picture, ci: nat, c: nat): nat
    requires Scanned(p) && ci < |p.comps| && p.comps[ci].h > 0
  {
    if c + 1 < McusPerRow(p) then McuWidth(p, ci) else LastColWidth(p, ci)
  }

  /** BlockCount separates the real block columns of an MCU from the dummy ones. */
  lemma RealColumns(p: Picture, ci: nat, c: nat, xi: nat)
    requires PictureOk(p) && ci in p.scan && c < McusPerRow(p) && xi < McuWidth(p, ci)
    ensures p.comps[ci].h > 0 && 0 < BlockCount(p, ci, c) <= McuWidth(p, ci)
    ensures c * McuWidth(p, ci) + xi < p.comps[ci].widthInBlocks <==> xi < BlockCount(p, ci, c)
    ensures BlockCount(p, ci, c) < McuWidth(p, ci) ==>
      p.comps[ci].widthInBlocks == c * McuWidth(p, ci) + BlockCount(p, ci, c)
  {
    assert ComponentOk(p, ci);
    var comp, w, k := p.comps[ci], McuWidth(p, ci), McusPerRow(p);
    if Interleaved(p) {
      RemainderOfGroups(comp.widthInBlocks, w, k);
      if c + 1 < k {
        MulMono(c + 1, k - 1, w);
        Distribute(c, 1, w);
      }
    }
  }

  /** The last block of an MCU row, wherever in the MCU one starts. */
  lemma LastOfMcu(c: nat, h: nat, i: nat)
    requires i < h
    ensures LastInMcu(c * h + i, h) == c * h + (h - 1)
  {
    DivModUnique(c * h + i, h, c, i);
  }

  // ---- dummy blocks ----

  ghost predicate Dummy(p: Picture, ci: nat, row: nat, y: nat, c: nat, xi: nat)
    requires CompOk(p, ci)
  {
    y >= RealRows(p, ci, row) || c * McuWidth(p, ci) + xi >= p.comps[ci].widthInBlocks
  }

  /** A dummy block has no AC coefficients and the DC value of the block that precedes it in the MCU, which is always a
      block of the same component. */
  lemma DummyRepeatsDc(p: Picture, ci: nat, row: nat, y: nat, c: nat, xi: nat)
    requires PictureOk(p) && Interleaved(p) && CompOk(p, ci) && ci in p.scan && row < p.totalRows
    requires y < McuHeight(p, ci) && c < McusPerRow(p) && xi < McuWidth(p, ci) && Dummy(p, ci, row, y, c, xi)
    ensures xi > 0 || y > 0
    ensures McuBlock(p, ci, row, y, c, xi)
      == DcBlock((if xi > 0 then McuBlock(p, ci, row, y, c, xi - 1)
                  else McuBlock(p, ci, row, y - 1, c, McuWidth(p, ci) - 1))[0])
  {
    hide Real, Groups, BlocksBefore, LastInMcu;
    RealColumns(p, ci, c, xi);
    var h := p.comps[ci].h;
    LastOfMcu(c, h, xi);
    if xi > 0 { LastOfMcu(c, h, xi - 1); }
  }

  /** The AC coefficients from k on cost one symbol, the least possible, exactly when they are all zero. */
  lemma {:induction false} AcCost(block: Block, tbl: nat, k: nat, r: nat)
    requires 1 <= k <= 64 && (k < 64 || r > 0) && !AcTrace(block, tbl, k, r).bad
    ensures |AcTrace(block, tbl, k, r).ops| >= 1
    ensures |AcTrace(block, tbl, k, r).ops| == 1 <==> forall j :: k <= j < 64 ==> Zigzag(block, j) == 0
    decreases 64 - k, r
  {
    hide AcTrace, NaturalOrder, Zigzag, BitLen, Abs, Extra;
    AcStep(block, tbl, k, r);
    if k < 64 {
      if Zigzag(block, k) == 0 {
        AcCost(block, tbl, k + 1, r + 1);
      } else if r > 15 {
        AcCost(block, tbl, k, r - 16);
      }
    }
  }

  lemma NoAc(block: Block)
    requires forall j :: 1 <= j < 64 ==> Zigzag(block, j) == 0
    ensures block == DcBlock(block[0])
  {
    hide NaturalOrder, ZigzagOrder;
    forall n | 1 <= n < 64 ensures block[n] == 0 {
      NaturalOfZigzag(n);
      ZigzagOfNatural(0);
      NaturalStart();
      if ZigzagOrder(n) > 0 { assert Zigzag(block, ZigzagOrder(n)) == 0; }
    }
  }

  lemma NaturalStart()
    ensures NaturalOrder(0) == 0
  {}

  lemma DcBlockAc(v: int, k: nat)
    requires 1 <= k < 64
    ensures Zigzag(DcBlock(v), k) == 0
  {
    hide NaturalOrder, ZigzagOrder;
    NaturalStart();
    ZigzagOfNatural(0);
    ZigzagOfNatural(k);
  }

  /** Every encodable block costs at least two symbols, and the dummy block that repeats the predicted DC value is the
      only block that costs no more. */
  lemma DummyCheapest(block: Block, lastDc: int, dcTbl: nat, acTbl: nat)
    requires InRange(block, lastDc)
    ensures |BlockTrace(block, lastDc, dcTbl, acTbl).ops| >= 2
    ensures |BlockTrace(block, lastDc, dcTbl, acTbl).ops| == 2 <==> block == DcBlock(lastDc)
  {
    hide AcTrace, NaturalOrder, Zigzag, Extra;
    BlockBad(block, lastDc, dcTbl, acTbl);
    AcCost(block, acTbl, 1, 0);
    if block == DcBlock(lastDc) {
      forall k | 1 <= k < 64 ensures Zigzag(block, k) == 0 { DcBlockAc(lastDc, k); }
    }
    if |AcTrace(block, acTbl, 1, 0).ops| == 1 { NoAc(block); }
  }

  // ---- raster order ----

  lemma {:induction false} BeforeAt(p: Picture, row: nat, yoffset: nat, c: nat, y: nat, x: nat)
    requires CompsOk(p) && x < McusPerRow(p) && c <= McusPerRow(p) && (y < yoffset || (y == yoffset && x < c))
    ensures |Before(p, row, yoffset, c)| == yoffset * McusPerRow(p) + c
    ensures y * McusPerRow(p) + x < |Before(p, row, yoffset, c)|
    ensures Before(p, row, yoffset, c)[y * McusPerRow(p) + x] == McuAt(p, row, y, x)
    decreases yoffset, c
  {
    hide McuAt;
    BeforeLength(p, row, yoffset, c);
    if c > 0 {
      BeforeLength(p, row, yoffset, c - 1);
      if !(y == yoffset && x == c - 1) { BeforeAt(p, row, yoffset, c - 1, y, x); }
    } else {
      BeforeAt(p, row, yoffset - 1, McusPerRow(p), y, x);
    }
  }

  lemma {:induction false} BeforeLength(p: Picture, row: nat, yoffset: nat, c: nat)
    requires CompsOk(p)
    ensures |Before(p, row, yoffset, c)| == yoffset * McusPerRow(p) + c
    decreases yoffset, c
  {
    hide McuAt;
    if c > 0 {
      BeforeLength(p, row, yoffset, c - 1);
    } else if yoffset > 0 {
      BeforeLength(p, row, yoffset - 1, McusPerRow(p));
      Distribute(yoffset - 1, 1, McusPerRow(p));
    }
  }

  /** MCU rows above iMCU row n. */
  ghost function McuRowsAbove(p: Picture, n: nat): nat
    requires CompsOk(p)
  {
    if n == 0 then 0 else McuRowsAbove(p, n - 1) + RowsPer(p, n - 1)
  }

  /** The scan holds MCUs_per_row times MCU_rows_in_scan MCUs. */
  lemma McuRowsInScan(p: Picture)
    requires PictureOk(p) && CompsOk(p)
    ensures McuRowsAbove(p, p.totalRows) == if Interleaved(p) then p.totalRows else p.comps[p.scan[0]].heightInBlocks
  {
    var first := p.scan[0];
    assert ComponentOk(p, first);
    RowsAboveFull(p, p.totalRows - 1);
    RemainderOfGroups(p.comps[first].heightInBlocks, p.comps[first].v, p.totalRows);
  }

  lemma {:induction false} RowsAboveFull(p: Picture, n: nat)
    requires CompsOk(p) && n < p.totalRows
    ensures McuRowsAbove(p, n) == if Interleaved(p) then n else n * p.comps[p.scan[0]].v
  {
    if n > 0 {
      RowsAboveFull(p, n - 1);
      Distribute(n - 1, 1, p.comps[p.scan[0]].v);
    }
  }

  /** Each MCU of the scan stands at its raster position. */
  lemma {:induction false} RasterOrder(p: Picture, n: nat, row: nat, y: nat, x: nat)
    requires CompsOk(p) && row < n && y < RowsPer(p, row) && x < McusPerRow(p)
    ensures |Rows(p, n)| == McuRowsAbove(p, n) * McusPerRow(p)
    ensures (McuRowsAbove(p, row) + y) * McusPerRow(p) + x < |Rows(p, n)|
    ensures Rows(p, n)[(McuRowsAbove(p, row) + y) * McusPerRow(p) + x] == McuAt(p, row, y, x)
  {
    hide McuAt, Before;
    var w := McusPerRow(p);
    RowsLength(p, n - 1);
    RowsLength(p, n);
    BeforeLength(p, n - 1, RowsPer(p, n - 1), 0);
    if row + 1 < n {
      RasterOrder(p, n - 1, row, y, x);
    } else {
      Distribute(McuRowsAbove(p, row), y, w);
      BeforeAt(p, row, RowsPer(p, row), 0, y, x);
    }
  }

  lemma {:induction false} RowsLength(p: Picture, n: nat)
    requires CompsOk(p)
    ensures |Rows(p, n)| == McuRowsAbove(p, n) * McusPerRow(p)
  {
    if n > 0 {
      RowsLength(p, n - 1);
      BeforeLength(p, n - 1, RowsPer(p, n - 1), 0);
      Distribute(McuRowsAbove(p, n - 1), RowsPer(p, n - 1), McusPerRow(p));
    }
  }

  // ---- a scan over a single component ----

  /** A noninterleaved scan consists of the real blocks of its component, one to an MCU, in raster order: no dummy block
      is in it, although the component is stored with them. */
  lemma ComponentScan(p: Picture, ci: nat, y: nat, x: nat)
    requires PictureOk(p) && CompsOk(p) && p.scan == [ci] && ci < |p.comps|
    requires y < p.comps[ci].heightInBlocks && x < p.comps[ci].widthInBlocks
    ensures p.comps[ci].v > 0 && |Rows(p, p.totalRows)| == p.comps[ci].heightInBlocks * p.comps[ci].widthInBlocks
    ensures y * p.comps[ci].widthInBlocks + x < |Rows(p, p.totalRows)|
    ensures Rows(p, p.totalRows)[y * p.comps[ci].widthInBlocks + x]
      == [Real(p, ci, y / p.comps[ci].v, y % p.comps[ci].v, x)]
  {
    hide Rows, McuAt, McuRowsAbove, RowsPer, RealRows, Real, PictureOk;
    var v := p.comps[ci].v;
    var row, yoffset := y / v, y % v;
    assert y == row * v + yoffset;
    ComponentRows(p, ci, row, yoffset);
    RasterOrder(p, p.totalRows, row, yoffset, x);
    McuRowsInScan(p);
    SingleMcu(p, ci, row, yoffset, x);
  }

  lemma ComponentRows(p: Picture, ci: nat, row: nat, yoffset: nat)
    requires PictureOk(p) && CompsOk(p) && p.scan == [ci] && yoffset < p.comps[ci].v
    requires row * p.comps[ci].v + yoffset < p.comps[ci].heightInBlocks
    ensures row < p.totalRows && yoffset < RowsPer(p, row) == RealRows(p, ci, row)
    ensures McuRowsAbove(p, row) == row * p.comps[ci].v
  {
    hide BlocksBefore, McuRowsAbove;
    assert ComponentOk(p, ci);
    var v, h, k := p.comps[ci].v, p.comps[ci].heightInBlocks, p.totalRows;
    RemainderOfGroups(h, v, k);
    if row >= k { MulMono(k, row, v); }
    if row < k { RowsAboveFull(p, row); }
  }

  lemma SingleMcu(p: Picture, ci: nat, row: nat, yoffset: nat, x: nat)
    requires CompsOk(p) && p.scan == [ci] && yoffset < RealRows(p, ci, row) && x < p.comps[ci].widthInBlocks
    ensures McuAt(p, row, yoffset, x) == [Real(p, ci, row, yoffset, x)]
  {
    hide Real;
    assert McuBlock(p, ci, row, yoffset, x, 0) == Real(p, ci, row, yoffset, x);
    assert RowBlocks(p, ci, row, yoffset, x) == [Real(p, ci, row, yoffset, x)];
    assert CompBlocks(p, ci, row, yoffset, x, 1)
      == CompBlocks(p, ci, row, yoffset, x, 0) + RowBlocks(p, ci, row, yoffset, x);
    assert McuBlocks(p, row, yoffset, x, 1) == McuBlocks(p, row, yoffset, x, 0) + CompBlocks(p, ci, row, yoffset, x, 1);
  }

  /** The padded blocks of a component do not depend on the scan. */
  lemma {:induction false} PaddedForAll(p: Picture, scan: seq<nat>, ci: nat, row: nat, y: nat, x: nat)
    requires CompOk(p, ci)
    ensures CompOk(p.(scan := scan), ci)
    ensures PaddedBlock(p.(scan := scan), ci, row, y, x) == PaddedBlock(p, ci, row, y, x)
    decreases y
  {
    if y >= RealRows(p, ci, row) { PaddedForAll(p, scan, ci, row, y - 1, LastInMcu(x, p.comps[ci].h)); }
  }

  // ---- how far a pass has got ----

  /** Where a pass stands: the MCUs above iMCU row row, and those of the row up to (yoffset, c). */
  ghost function Sent(p: Picture, row: nat, yoffset: nat, c: nat): seq<Mcu>
    requires CompsOk(p)
  {
    Rows(p, row) + Before(p, row, yoffset, c)
  }

  lemma SentStep(p: Picture, row: nat, yoffset: nat, c: nat)
    requires CompsOk(p)
    ensures Sent(p, row, yoffset, c + 1) == Sent(p, row, yoffset, c) + [McuAt(p, row, yoffset, c)]
    ensures Sent(p, row, yoffset + 1, 0) == Sent(p, row, yoffset, McusPerRow(p))
    ensures Sent(p, row + 1, 0, 0) == Sent(p, row, RowsPer(p, row), 0)
    ensures Sent(p, 0, 0, 0) == []
  {
    hide McuAt;
  }

  lemma {:induction false} BeforeGrows(p: Picture, row: nat, y: nat, c: nat, n: nat)
    requires CompsOk(p) && y < n && c <= McusPerRow(p)
    ensures Before(p, row, y, c) <= Before(p, row, n, 0)
    decreases n - y, McusPerRow(p) - c
  {
    hide McuAt;
    if c < McusPerRow(p) {
      BeforeGrows(p, row, y, c + 1, n);
    } else if y + 1 < n {
      BeforeGrows(p, row, y + 1, 0, n);
    }
  }

  lemma {:induction false} RowsGrow(p: Picture, m: nat, n: nat)
    requires CompsOk(p) && m <= n
    ensures Rows(p, m) <= Rows(p, n)
  {
    hide Before;
    if m < n { RowsGrow(p, m, n - 1); }
  }

  /** What has been handed over is an initial part of the scan, and the whole scan once all rows are done. */
  lemma SentWithin(p: Picture, row: nat, y: nat, c: nat)
    requires CompsOk(p) && row <= p.totalRows && y < RowsPer(p, row) && c < McusPerRow(p)
    requires row == p.totalRows ==> y == 0 && c == 0
    ensures Sent(p, row, y, c) <= Rows(p, p.totalRows)
    ensures row == p.totalRows ==> Sent(p, row, y, c) == Rows(p, p.totalRows)
  {
    if row < p.totalRows {
      BeforeGrows(p, row, y, c, RowsPer(p, row));
      RowsGrow(p, row + 1, p.totalRows);
    }
  }

  lemma SentNext(p: Picture, row: nat, y: nat, c: nat)
    requires CompsOk(p) && row < p.totalRows && y < RowsPer(p, row) && c < McusPerRow(p)
    ensures Sent(p, row, y, c + 1) <= Rows(p, p.totalRows)
    ensures |Sent(p, row, y, c)| < |Rows(p, p.totalRows)|
  {
    hide Before;
    BeforeGrows(p, row, y, c + 1, RowsPer(p, row));
    RowsGrow(p, row + 1, p.totalRows);
    BeforeLength(p, row, y, c);
    BeforeLength(p, row, y, c + 1);
  }

  lemma SentLonger(p: Picture, row: nat, y: nat, c: nat, y': nat, c': nat)
    requires CompsOk(p) && y < RowsPer(p, row) && c < McusPerRow(p)
    ensures |Sent(p, row, y, c)| < |Sent(p, row + 1, y', c')|
  {
    hide Before;
    BeforeGrows(p, row, y, c + 1, RowsPer(p, row));
    BeforeLength(p, row, y, c);
    BeforeLength(p, row, y, c + 1);
  }
}
