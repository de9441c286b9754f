/** Where the blocks of an image stand in a scan, in the coordinates of their component, and how they are coded. */
module ImageLayouts {
  import opened Bits
  import opened Symbols
  import opened Pictures
  import opened Scans
  import opened ScanLayouts
  import opened PictureScans

  /** Blocks of the first k components of the scan in an interleaved MCU: the products of their sampling factors. */
  function FactorsBefore(p: Picture, k: nat): nat
    requires Scanned(p) && k <= |p.scan|
  {
    if k == 0 then 0
    else FactorsBefore(p, k - 1) + p.comps[p.scan[k - 1]].h * p.comps[p.scan[k - 1]].v
  }

  lemma {:induction false} BlocksAreFactors(p: Picture, k: nat)
    requires Scanned(p) && |p.scan| > 1 && k <= |p.scan|
    ensures BlocksBefore(p, k) == FactorsBefore(p, k)
  {
    if k > 0 { BlocksAreFactors(p, k - 1); }
  }

  lemma {:induction false} MembershipBelow(p: Picture, n: nat)
    requires Scanned(p) && n <= |p.scan|
    ensures forall b :: 0 <= b < |Membership(p, n)| ==> Membership(p, n)[b] < n
  {
    if n > 0 { MembershipBelow(p, n - 1); }
  }

  /** Component ci fills the iMCUs: all but the last row and column completely, and these partly. */
  ghost predicate FillsMcus(p: Picture, ci: nat)
    requires ci < |p.comps|
  {
    var c := p.comps[ci];
    && c.h > 0 && c.v > 0 && c.widthInBlocks > 0
    && (p.totalRows - 1) * c.v < c.heightInBlocks <= p.totalRows * c.v
    && (p.mcusAcross - 1) * c.h < c.widthInBlocks <= p.mcusAcross * c.h
  }

  /** A scan has such a configuration if and only if it is one of at most 4 of at most 10 components, and the MCUs of an
      interleaved scan have at most 10 blocks. */
  lemma ConfigExists(p: Picture, dcTbl: seq<nat>, acTbl: seq<nat>, restartInterval: nat)
    requires Scanned(p) && |dcTbl| == |acTbl| == |p.scan|
    requires forall k :: 0 <= k < |p.scan| ==> dcTbl[k] < 4 && acTbl[k] < 4
    ensures ConfigFor(p, ScanConfig(|p.scan|, Membership(p, |p.scan|), dcTbl, acTbl, restartInterval))
      <==> (|p.scan| <= 4 && 1 <= |p.comps| <= 10 && p.totalRows > 0 && p.mcusAcross > 0
            && (forall ci :: 0 <= ci < |p.comps| ==> FillsMcus(p, ci))
            && (|p.scan| > 1 ==> FactorsBefore(p, |p.scan|) <= 10))
  {
    MembershipBelow(p, |p.scan|);
    if |p.scan| > 1 { BlocksAreFactors(p, |p.scan|); } else { assert BlocksBefore(p, 0) == 0; }
    FilledIs(p);
  }

  lemma FilledIs(p: Picture)
    ensures p.totalRows > 0 && p.mcusAcross > 0 ==>
      forall ci :: 0 <= ci < |p.comps| ==> ComponentOk(p, ci) == FillsMcus(p, ci)
  {}

  /** MCU_membership names the component of every block. */
  lemma {:induction false} MembershipAt(p: Picture, n: nat, k: nat, b: nat)
    requires Scanned(p) && k < n <= |p.scan| && BlocksBefore(p, k) <= b < BlocksBefore(p, k + 1)
    ensures b < |Membership(p, n)| && Membership(p, n)[b] == k
  {
    if k < n - 1 { MembershipAt(p, n - 1, k, b); }
  }

  /** Block (y, xi) of component k stands here in an MCU. */
  function Place(p: Picture, k: nat, y: nat, xi: nat): nat
    requires Scanned(p) && k < |p.scan|
  {
    FactorsBefore(p, k) + (y * p.comps[p.scan[k]].h + xi)
  }

  /** The blocks of component k in an MCU. */
  lemma PlaceInMcu(p: Picture, k: nat, y: nat, xi: nat)
    requires PictureOk(p) && |p.scan| > 1 && k < |p.scan|
    requires y < p.comps[p.scan[k]].v && xi < p.comps[p.scan[k]].h
    ensures var place := Place(p, k, y, xi);
      && place == BlockIndex(p, k, y, xi) && BlocksBefore(p, k) <= place < BlocksBefore(p, k + 1)
      && place < |Membership(p, |p.scan|)| && Membership(p, |p.scan|)[place] == k
  {
    hide Membership;
    var h, v := p.comps[p.scan[k]].h, p.comps[p.scan[k]].v;
    BlocksAreFactors(p, k);
    Distribute(y, 1, h);
    MulMono(y + 1, v, h);
    assert v * h == h * v;
    MembershipAt(p, |p.scan|, k, FactorsBefore(p, k) + (y * h + xi));
  }

  /** Which block rows of an iMCU row are inside the image. */
  lemma RealRowsAre(p: Picture, ci: nat, row: nat, y: nat)
    requires PictureOk(p) && ci < |p.comps| && row < p.totalRows && y < p.comps[ci].v
    ensures y < RealRows(p, ci, row) <==> row * p.comps[ci].v + y < p.comps[ci].heightInBlocks
  {
    hide BlocksBefore;
    assert ComponentOk(p, ci);
    var v, h, k := p.comps[ci].v, p.comps[ci].heightInBlocks, p.totalRows;
    RemainderOfGroups(h, v, k);
    if row + 1 < k {
      MulMono(row + 1, k - 1, v);
      Distribute(row, 1, v);
    }
  }

  /** MCU m of a scan has size blocks. */
  ghost predicate McuHas(scan: seq<Mcu>, m: nat, size: nat) {
    m < |scan| && |scan[m]| == size
  }

  /** This block stands at this place of MCU m. */
  ghost predicate StandsAt(scan: seq<Mcu>, m: nat, place: nat, block: Block) {
    m < |scan| && place < |scan[m]| && scan[m][place] == block
  }

  /** The block at this place, behind the first of its component, repeats the DC value of the one before and is zero
      otherwise. */
  ghost predicate RepeatsAt(scan: seq<Mcu>, m: nat, place: nat, first: nat) {
    && m < |scan| && first < place < |scan[m]|
    && scan[m][place][0] == scan[m][place - 1][0] && forall j :: 1 <= j < 64 ==> scan[m][place][j] == 0
  }

  /** An interleaved scan: MCU (row, col) has the product of the sampling factors for each of its components. Block (y,
      xi) of component k stands behind the earlier components, row by row, and belongs to component k. Inside the image
      it is the DCT of the samples there. Otherwise it repeats the DC value of the block before it, which belongs to
      component k, too. */
  lemma InterleavedLayout(p: Picture, k: nat, row: nat, y: nat, col: nat, xi: nat)
    requires PictureOk(p) && CompsOk(p) && |p.scan| > 1 && k < |p.scan| && row < p.totalRows && col < p.mcusAcross
    requires y < p.comps[p.scan[k]].v && xi < p.comps[p.scan[k]].h
    ensures |Rows(p, p.totalRows)| == p.totalRows * p.mcusAcross
    ensures |Membership(p, |p.scan|)| == FactorsBefore(p, |p.scan|) > Place(p, k, y, xi)
    ensures Membership(p, |p.scan|)[Place(p, k, y, xi)] == k
    ensures McuHas(Rows(p, p.totalRows), row * p.mcusAcross + col, FactorsBefore(p, |p.scan|))
    ensures var scan, m, comp := Rows(p, p.totalRows), row * p.mcusAcross + col, p.comps[p.scan[k]];
      if row * comp.v + y < comp.heightInBlocks && col * comp.h + xi < comp.widthInBlocks then
        StandsAt(scan, m, Place(p, k, y, xi), p.dct(row, p.scan[k], 8 * y, 8 * (col * comp.h + xi)))
      else
        RepeatsAt(scan, m, Place(p, k, y, xi), FactorsBefore(p, k))
  {
    hide Rows, McuBlocks, BlockIndex, RealRows, McuRowsAbove, Membership, McuBlock, BlocksBefore, FactorsBefore,
      PictureOk;
    var comp := p.comps[p.scan[k]];
    PlaceInMcu(p, k, y, xi);
    BlocksAreFactors(p, |p.scan|);
    RowsAboveFull(p, row);
    McuRowsInScan(p);
    RasterOrder(p, p.totalRows, row, 0, col);
    McuBlockAt(p, row, 0, col, |p.scan|, k, y, xi);
    RealRowsAre(p, p.scan[k], row, y);
    InsideBlock(p, p.scan[k], row, y, col, xi);
    if !(row * comp.v + y < comp.heightInBlocks && col * comp.h + xi < comp.widthInBlocks) {
      DummyRepeatsDc(p, p.scan[k], row, y, col, xi);
      PreviousPlace(p, k, row, y, col, xi);
    }
  }

  lemma InsideBlock(p: Picture, ci: nat, row: nat, y: nat, col: nat, xi: nat)
    requires CompOk(p, ci) && |p.scan| > 1
    ensures y < RealRows(p, ci, row) && col * p.comps[ci].h + xi < p.comps[ci].widthInBlocks ==>
      McuBlock(p, ci, row, y, col, xi) == p.dct(row, ci, 8 * y, 8 * (col * p.comps[ci].h + xi))
    ensures Dummy(p, ci, row, y, col, xi)
      <==> !(y < RealRows(p, ci, row) && col * p.comps[ci].h + xi < p.comps[ci].widthInBlocks)
  {
    hide RealRows;
  }

  /** The block before a dummy block. */
  lemma PreviousPlace(p: Picture, k: nat, row: nat, y: nat, col: nat, xi: nat)
    requires PictureOk(p) && CompsOk(p) && |p.scan| > 1 && k < |p.scan| && (xi > 0 || y > 0)
    requires y < p.comps[p.scan[k]].v && xi < p.comps[p.scan[k]].h
    ensures var ci := p.scan[k];
      var place, h := FactorsBefore(p, k) + (y * p.comps[ci].h + xi), p.comps[ci].h;
      && FactorsBefore(p, k) < place <= |McuAt(p, row, 0, col)|
      && McuAt(p, row, 0, col)[place - 1]
        == if xi > 0 then McuBlock(p, ci, row, y, col, xi - 1) else McuBlock(p, ci, row, y - 1, col, h - 1)
  {
    hide Membership, McuBlocks, McuBlock, PictureOk, FactorsBefore, BlocksBefore;
    var h := p.comps[p.scan[k]].h;
    if xi > 0 {
      PlaceInMcu(p, k, y, xi - 1);
      McuBlockAt(p, row, 0, col, |p.scan|, k, y, xi - 1);
    } else {
      Distribute(y - 1, 1, h);
      PlaceInMcu(p, k, y - 1, h - 1);
      McuBlockAt(p, row, 0, col, |p.scan|, k, y - 1, h - 1);
    }
  }

  /** This block stands at this place of MCU m, belongs to component k of the scan, and what is written for it are the
      symbols of that component's tables for the difference to the block of the component before it. */
  ghost predicate CodedAt(p: Picture, c: ScanConfig, m: nat, place: nat, k: nat, block: Block)
    requires CompsOk(p) && ConfigOk(c)
  {
    var scan := Rows(p, p.totalRows);
    && McusOk(c, scan) && m < |scan| && place < |scan[m]| && scan[m][place] == block
    && k < |c.dcTbl| && k < |c.acTbl| && place < |c.membership| && c.membership[place] == k
    && BlockOps(c, scan, m, place) == BlockTrace(block, DcBefore(c, scan, m, place, k), c.dcTbl[k], c.acTbl[k]).ops
  }

  lemma CodedIs(p: Picture, c: ScanConfig, m: nat, place: nat, k: nat, block: Block)
    requires ConfigFor(p, c) && CompsOk(p) && ConfigOk(c) && McusOk(c, Rows(p, p.totalRows))
    requires StandsAt(Rows(p, p.totalRows), m, place, block)
    requires place < |Membership(p, |p.scan|)| && Membership(p, |p.scan|)[place] == k
    ensures CodedAt(p, c, m, place, k, block)
  {
    hide Rows, DcBefore, BlockTrace, McusOk, Membership, PictureOk;
  }

  /** Nothing of a component is left out of an interleaved scan: the block in row row * v + y and column col * h + xi is
      the DCT of the samples there, and is coded in MCU (row, col). */
  lemma InterleavedCoverage(p: Picture, c: ScanConfig, k: nat, row: nat, y: nat, col: nat, xi: nat)
    requires ConfigFor(p, c) && CompsOk(p) && ConfigOk(c) && |p.scan| > 1 && k < |p.scan|
    requires var comp := p.comps[p.scan[k]];
      y < comp.v && xi < comp.h && row * comp.v + y < comp.heightInBlocks && col * comp.h + xi < comp.widthInBlocks
    ensures row < p.totalRows && col < p.mcusAcross
    ensures CodedAt(p, c, row * p.mcusAcross + col, Place(p, k, y, xi), k,
                    p.dct(row, p.scan[k], 8 * y, 8 * (col * p.comps[p.scan[k]].h + xi)))
  {
    hide Rows, Membership, FactorsBefore, BlocksBefore, McusOk, CodedAt, Place, StandsAt, RepeatsAt, McuHas, PictureOk,
      ConfigFor, ConfigOk;
    var comp := p.comps[p.scan[k]];
    InsideMcus(p, c, k, row, y, col, xi);
    InterleavedLayout(p, k, row, y, col, xi);
    RowsFit(p, c, p.totalRows);
    CodedIs(p, c, row * p.mcusAcross + col, Place(p, k, y, xi), k,
      p.dct(row, p.scan[k], 8 * y, 8 * (col * comp.h + xi)));
  }

  lemma InsideMcus(p: Picture, c: ScanConfig, k: nat, row: nat, y: nat, col: nat, xi: nat)
    requires ConfigFor(p, c) && k < |p.scan|
    requires var comp := p.comps[p.scan[k]];
      row * comp.v + y < comp.heightInBlocks && col * comp.h + xi < comp.widthInBlocks
    ensures PictureOk(p) && row < p.totalRows && col < p.mcusAcross
  {
    hide BlocksBefore, Membership;
    var comp := p.comps[p.scan[k]];
    assert ComponentOk(p, p.scan[k]);
    InGroup(row, y, comp.heightInBlocks, comp.v, p.totalRows);
    InGroup(col, xi, comp.widthInBlocks, comp.h, p.mcusAcross);
  }

  lemma InGroup(q: nat, r: nat, n: nat, f: nat, k: nat)
    requires q * f + r < n && Groups(n, f, k)
    ensures q < k
  {
    if q >= k { MulMono(k, q, f); }
  }

  /** So it is in a scan over a single component, whose MCUs are the blocks in raster order. */
  lemma SingleCoverage(p: Picture, c: ScanConfig, ci: nat, row: nat, y: nat, x: nat)
    requires ConfigFor(p, c) && CompsOk(p) && ConfigOk(c) && p.scan == [ci] && ci < |p.comps| && y < p.comps[ci].v
    requires row * p.comps[ci].v + y < p.comps[ci].heightInBlocks && x < p.comps[ci].widthInBlocks
    ensures |Rows(p, p.totalRows)| == p.comps[ci].heightInBlocks * p.comps[ci].widthInBlocks
    ensures c.membership == [0]
    ensures CodedAt(p, c, (row * p.comps[ci].v + y) * p.comps[ci].widthInBlocks + x, 0, 0, p.dct(row, ci, 8 * y, 8 * x))
  {
    hide Rows, McusOk, CodedAt;
    DivModUnique(row * p.comps[ci].v + y, p.comps[ci].v, row, y);
    ComponentScan(p, ci, row * p.comps[ci].v + y, x);
    RowsFit(p, c, p.totalRows);
    SingleMembership(p, c);
    CodedIs(p, c, (row * p.comps[ci].v + y) * p.comps[ci].widthInBlocks + x, 0, 0, p.dct(row, ci, 8 * y, 8 * x));
  }

  lemma SingleMembership(p: Picture, c: ScanConfig)
    requires ConfigFor(p, c) && CompsOk(p) && |p.scan| == 1
    ensures c.membership == [0]
  {
    assert BlocksBefore(p, 1) == BlocksBefore(p, 0) + 1;
    MembershipAt(p, 1, 0, 0);
  }
}
