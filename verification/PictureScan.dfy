/** From an image to entropy-coded bytes and back: the MCUs of the coefficient controller, entropy-coded. */
module PictureScans {
  import opened Bits
  import opened Pictures
  import opened Scans
  import opened Emissions
  import opened EntropyEncoder
  import opened BlockDecoder
  import ScanDecoder

  /** MCU_membership as per_scan_setup fills it: the scan's component of each block of an MCU. */
  ghost function Membership(p: Picture, n: nat): (m: seq<nat>)
    requires Scanned(p) && n <= |p.scan|
    ensures |m| == BlocksBefore(p, n)
  {
    if n == 0 then []
    else Membership(p, n - 1) + seq(McuWidth(p, p.scan[n - 1]) * McuHeight(p, p.scan[n - 1]), i => n - 1)
  }

  /** Restart interval and table numbers for a scan of an image. */
  ghost predicate ConfigFor(p: Picture, c: ScanConfig) {
    PictureOk(p) && ConfigOk(c) && c.comps == |p.scan| && c.membership == Membership(p, |p.scan|)
  }

  lemma McuFits(p: Picture, c: ScanConfig, row: nat, yoffset: nat, col: nat)
    requires ConfigFor(p, c) && CompsOk(p)
    ensures McuOk(c, McuAt(p, row, yoffset, col))
  {}

  lemma {:induction false} BeforeFits(p: Picture, c: ScanConfig, row: nat, yoffset: nat, col: nat)
    requires ConfigFor(p, c) && CompsOk(p)
    ensures McusOk(c, Before(p, row, yoffset, col))
    decreases yoffset, col
  {
    hide McuOk, McuAt, ConfigFor;
    if col > 0 {
      McuFits(p, c, row, yoffset, col - 1);
      BeforeFits(p, c, row, yoffset, col - 1);
    } else if yoffset > 0 {
      BeforeFits(p, c, row, yoffset - 1, McusPerRow(p));
    }
  }

  /** The MCUs of an image suit the entropy encoder. */
  lemma {:induction false} RowsFit(p: Picture, c: ScanConfig, n: nat)
    requires ConfigFor(p, c) && CompsOk(p)
    ensures McusOk(c, Rows(p, n))
  {
    hide McuOk, McuAt, ConfigFor, Before;
    if n > 0 {
      RowsFit(p, c, n - 1);
      BeforeFits(p, c, n - 1, RowsPer(p, n - 1), 0);
    }
  }

  /** Where block (y, xi) of component k of the scan stands in an MCU. */
  ghost function BlockIndex(p: Picture, k: nat, y: nat, xi: nat): nat
    requires Scanned(p) && k < |p.scan|
  {
    BlocksBefore(p, k) + (y * McuWidth(p, p.scan[k]) + xi)
  }

  lemma {:induction false} CompBlockAt(p: Picture, ci: nat, row: nat, yoffset: nat, c: nat, n: nat, y: nat, xi: nat)
    requires CompOk(p, ci) && y < n && xi < McuWidth(p, ci)
    ensures y * McuWidth(p, ci) + xi < n * McuWidth(p, ci)
    ensures CompBlocks(p, ci, row, yoffset, c, n)[y * McuWidth(p, ci) + xi] == McuBlock(p, ci, row, yoffset + y, c, xi)
  {
    hide McuBlock, McuWidth;
    Distribute(n - 1, 1, McuWidth(p, ci));
    if y < n - 1 { CompBlockAt(p, ci, row, yoffset, c, n - 1, y, xi); }
  }

  lemma {:induction false} McuBlockAt(p: Picture, row: nat, yoffset: nat, c: nat, n: nat, k: nat, y: nat, xi: nat)
    requires CompsOk(p) && k < n <= |p.scan| && y < McuHeight(p, p.scan[k]) && xi < McuWidth(p, p.scan[k])
    ensures CompOk(p, p.scan[k]) && BlockIndex(p, k, y, xi) < BlocksBefore(p, n)
    ensures McuBlocks(p, row, yoffset, c, n)[BlockIndex(p, k, y, xi)] == McuBlock(p, p.scan[k], row, yoffset + y, c, xi)
  {
    hide McuBlock, McuWidth, McuHeight, CompBlocks;
    if k < n - 1 {
      McuBlockAt(p, row, yoffset, c, n - 1, k, y, xi);
    } else {
      CompBlockAt(p, p.scan[k], row, yoffset, c, McuHeight(p, p.scan[k]), y, xi);
    }
  }

  /** Where an MCU stands in the scan. */
  ghost function McuIndex(p: Picture, row: nat, yoffset: nat, col: nat): nat
    requires CompsOk(p)
  {
    (McuRowsAbove(p, row) + yoffset) * McusPerRow(p) + col
  }

  /** Every block that the forward DCT computes for a component of the scan stands in it, at the raster position of its
      MCU and at its place in that MCU. */
  lemma BlockInScan(p: Picture, k: nat, row: nat, yoffset: nat, y: nat, col: nat, xi: nat)
    requires CompsOk(p) && k < |p.scan| && CompOk(p, p.scan[k])
    requires row < p.totalRows && yoffset < RowsPer(p, row) && col < McusPerRow(p)
    requires y < McuHeight(p, p.scan[k]) && xi < McuWidth(p, p.scan[k]) && yoffset + y < RealRows(p, p.scan[k], row)
    requires col * McuWidth(p, p.scan[k]) + xi < p.comps[p.scan[k]].widthInBlocks
    ensures var scan, m := Rows(p, p.totalRows), McuIndex(p, row, yoffset, col);
      && m < |scan| && BlockIndex(p, k, y, xi) < |scan[m]|
      && scan[m][BlockIndex(p, k, y, xi)]
        == p.dct(row, p.scan[k], DCTSIZE * (yoffset + y), DCTSIZE * (col * McuWidth(p, p.scan[k]) + xi))
  {
    hide Rows, McuBlocks, BlockIndex, RowsPer, RealRows, McuWidth, McuHeight, McuRowsAbove, McusPerRow;
    RasterOrder(p, p.totalRows, row, yoffset, col);
    McuBlockAt(p, row, yoffset, col, |p.scan|, k, y, xi);
  }

  /** From the bytes of a complete scan of an image, the T.81 decoder recovers all its MCUs. */
  lemma ImageDecodes(p: Picture, c: ScanConfig, slots: HuffSlots, t: Tables)
    requires CompsOk(p) && ConfigFor(p, c) && ConfigOk(c) && SlotsOk(slots) && TablesOk(t)
    requires AllUsable(c, slots, c.comps) && AllDerived(c, slots, t, c.comps)
    requires McusOk(c, Rows(p, p.totalRows)) ==> !NotWritable(c, t, Rows(p, p.totalRows))
    ensures McusOk(c, Rows(p, p.totalRows)) && CodeTablesOk(SentTables(slots))
    ensures var scan := Rows(p, p.totalRows);
      var r := Reference(c, t, scan);
      ScanDecoder.DecodeScan(c, SentTables(slots), r.bytes + Flush(r.pending), |scan|) == Some(scan)
  {
    hide Reference, Rows, ScanDecoder.DecodeScan, Flush, AllUsable, AllDerived, TablesOk, NotWritable, ConfigFor,
      SentTables, McusOk, ConfigOk;
    RowsFit(p, c, p.totalRows);
    ReferenceDecodes(c, slots, t, Rows(p, p.totalRows));
  }
}
