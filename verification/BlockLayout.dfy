/** A block in closed form: what section F.1.2 of T.81 prescribes for its coefficients, without a running counter. */
module BlockLayouts {
  import opened Bits
  import opened ZigzagScan
  import opened Symbols

  /** Tables F.1 and F.2: the category of a value. */
  function Category(v: int): nat {
    var a := if v < 0 then -v else v;
    if a == 0 then 0 else if a < 2 then 1 else if a < 4 then 2 else if a < 8 then 3 else if a < 16 then 4
    else if a < 32 then 5 else if a < 64 then 6 else if a < 128 then 7 else if a < 256 then 8 else if a < 512 then 9
    else if a < 1024 then 10 else 11
  }

  /** The additional bits: those of the value, or of the value less one if it is negative. */
  function Additional(v: int): Op {
    Raw(if v > 0 then v else v - 1, Category(v))
  }

  /** The first nonzero coefficient from zigzag position k on, or 64. */
  function NextNonzero(block: Block, k: nat): (n: nat)
    requires k <= 64
    ensures k <= n <= 64 && (n < 64 ==> Zigzag(block, n) != 0)
    ensures forall j :: k <= j < n ==> Zigzag(block, j) == 0
    decreases 64 - k
  {
    if k == 64 || Zigzag(block, k) != 0 then k else NextNonzero(block, k + 1)
  }

  /** Whole runs of sixteen zeros. */
  function ZeroRuns(tbl: nat, n: nat): seq<Op> {
    seq(n, i => Huff(false, tbl, 0xF0))
  }

  /** The nonzero coefficients behind zigzag position prev, each with the zeros before it, and the end of the block
      unless the last coefficient is one of them. */
  function AcLayout(block: Block, tbl: nat, prev: nat): seq<Op>
    requires prev < 64
    decreases 64 - prev
  {
    var k := NextNonzero(block, prev + 1);
    if k < 64 then
      var v, zeros := Zigzag(block, k), k - prev - 1;
      ZeroRuns(tbl, zeros / 16) + [Huff(false, tbl, 16 * (zeros % 16) + Category(v)), Additional(v)]
        + AcLayout(block, tbl, k)
    else if prev == 63 then []
    else [Huff(false, tbl, 0x00)]
  }

  /** The difference of the DC coefficients. */
  function DcLayout(diff: int, tbl: nat): seq<Op> {
    if diff == 0 then [Huff(true, tbl, 0)] else [Huff(true, tbl, Category(diff)), Additional(diff)]
  }

  /** A block in closed form. It can be coded if and only if the difference of the DC coefficients has at most 11 bits
      and every AC coefficient at most 10. */
  lemma BlockLayout(block: Block, lastDc: int, dcTbl: nat, acTbl: nat)
    ensures !BlockTrace(block, lastDc, dcTbl, acTbl).bad
      <==> -2047 <= block[0] - lastDc <= 2047 && forall j :: 1 <= j < 64 ==> -1023 <= block[j] <= 1023
    ensures !BlockTrace(block, lastDc, dcTbl, acTbl).bad ==>
      BlockTrace(block, lastDc, dcTbl, acTbl).ops == DcLayout(block[0] - lastDc, dcTbl) + AcLayout(block, acTbl, 0)
  {
    hide AcTrace, AcLayout, NaturalOrder, BitLen, Abs, Category;
    BlockBad(block, lastDc, dcTbl, acTbl);
    RangeIs(block, lastDc);
    CategoryIs(block[0] - lastDc);
    AcIs(block, acTbl, 0, 1);
  }

  /** The category is the number of bits of the magnitude. */
  lemma CategoryIs(v: int)
    ensures -1023 <= v <= 1023 <==> BitLen(Abs(v)) <= 10
    ensures -2047 <= v <= 2047 <==> BitLen(Abs(v)) <= 11
    ensures BitLen(Abs(v)) <= 11 ==> Category(v) == BitLen(Abs(v))
    ensures BitLen(Abs(v)) == 0 <==> v == 0
  {
    hide BitLen, Pow2;
    Powers();
    var n := BitLen(Abs(v));
    if n <= 11 {
      PowerWithin(n, Abs(v));
    } else {
      Pow2Mono(11, n - 1);
    }
  }

  lemma Powers()
    ensures Pow2(0) == 1 && Pow2(1) == 2 && Pow2(2) == 4 && Pow2(3) == 8 && Pow2(4) == 16 && Pow2(5) == 32
    ensures Pow2(6) == 64 && Pow2(7) == 128 && Pow2(8) == 256 && Pow2(9) == 512 && Pow2(10) == 1024 && Pow2(11) == 2048
  {
    Pow2Step(0); Pow2Step(1); Pow2Step(2); Pow2Step(3); Pow2Step(4); Pow2Step(5);
    Pow2Step(6); Pow2Step(7); Pow2Step(8); Pow2Step(9); Pow2Step(10);
  }

  lemma PowerWithin(n: nat, a: int)
    requires n <= 11 && 0 <= a < Pow2(n) && (n > 0 ==> Pow2(n - 1) <= a)
    ensures a < 2048 && (a < 1024 <==> n <= 10) && Category(a) == n && Category(-a) == n
  {
    hide Pow2;
    Powers();
    match n
    case 0 => case 1 => case 2 => case 3 => case 4 => case 5 => case 6 => case 7 => case 8 => case 9 => case 10 =>
    case _ => assert n == 11;
  }

  /** The coefficients the encoder accepts. */
  lemma RangeIs(block: Block, lastDc: int)
    ensures InRange(block, lastDc)
      <==> -2047 <= block[0] - lastDc <= 2047 && forall j :: 1 <= j < 64 ==> -1023 <= block[j] <= 1023
  {
    hide NaturalOrder, ZigzagOrder, BitLen, Abs, Category;
    CategoryIs(block[0] - lastDc);
    if InRange(block, lastDc) {
      forall j | 1 <= j < 64 ensures -1023 <= block[j] <= 1023 {
        NaturalOfZigzag(j);
        NaturalCorner();
        assert 1 <= ZigzagOrder(j);
        assert BitLen(Abs(Zigzag(block, ZigzagOrder(j)))) <= MAX_COEF_BITS;
        CategoryIs(block[j]);
      }
    } else if -2047 <= block[0] - lastDc <= 2047 && forall j :: 1 <= j < 64 ==> -1023 <= block[j] <= 1023 {
      forall k | 1 <= k < 64 ensures BitLen(Abs(Zigzag(block, k))) <= MAX_COEF_BITS {
        NotCorner(k);
        CategoryIs(Zigzag(block, k));
      }
    }
  }

  lemma NotCorner(k: nat)
    requires 1 <= k < 64
    ensures NaturalOrder(k) >= 1
  {
    hide NaturalOrder;
    NaturalCorner();
    ZigzagOfNatural(k);
    ZigzagOfNatural(0);
  }

  /** The AC coefficients from zigzag position k on, after the zeros behind prev. */
  lemma {:induction false} AcIs(block: Block, tbl: nat, prev: nat, k: nat)
    requires prev < k <= 64 && forall j :: prev < j < k ==> Zigzag(block, j) == 0
    ensures !AcTrace(block, tbl, k, k - prev - 1).bad ==>
      AcTrace(block, tbl, k, k - prev - 1).ops == AcLayout(block, tbl, prev)
    decreases 64 - k, k - prev
  {
    hide AcTrace, AcLayout, Zigzag, BitLen, Abs, Category, NextNonzero;
    var r := k - prev - 1;
    AcStep(block, tbl, k, r);
    AcLayoutStep(block, tbl, prev, k);
    if k < 64 {
      var v := Zigzag(block, k);
      if v == 0 {
        AcIs(block, tbl, prev, k + 1);
      } else if r > 15 {
        AcIs(block, tbl, prev + 16, k);
      } else {
        AcIs(block, tbl, k, k + 1);
        CategoryIs(v);
      }
    }
  }

  /** What AcLayout says when only zeros stand between prev and k. */
  lemma AcLayoutStep(block: Block, tbl: nat, prev: nat, k: nat)
    requires prev < k <= 64 && forall j :: prev < j < k ==> Zigzag(block, j) == 0
    ensures var r, l := k - prev - 1, AcLayout(block, tbl, prev);
      if k == 64 then l == if r > 0 then [Huff(false, tbl, 0)] else []
      else
        var v := Zigzag(block, k);
        && (v != 0 && r > 15 ==> l == [Huff(false, tbl, 0xF0)] + AcLayout(block, tbl, prev + 16))
        && (v != 0 && r <= 15 ==>
             l == [Huff(false, tbl, 16 * r + Category(v)), Additional(v)] + AcLayout(block, tbl, k))
  {
    hide *;
    if k == 64 || Zigzag(block, k) != 0 {
      AcLayoutNext(block, tbl, prev, k);
      var r := k - prev - 1;
      if k < 64 && r > 15 {
        AcLayoutNext(block, tbl, prev + 16, k);
        MoreZeroRuns(tbl, r);
        var coef := [Huff(false, tbl, 16 * (r % 16) + Category(Zigzag(block, k))), Additional(Zigzag(block, k))];
        assert [Huff(false, tbl, 0xF0)] + ZeroRuns(tbl, (r - 16) / 16) + coef + AcLayout(block, tbl, k)
          == [Huff(false, tbl, 0xF0)] + (ZeroRuns(tbl, (r - 16) / 16) + coef + AcLayout(block, tbl, k));
      } else {
        NoZeroRuns(tbl);
      }
    }
  }

  lemma AcLayoutNext(block: Block, tbl: nat, prev: nat, k: nat)
    requires prev < k <= 64 && forall j :: prev < j < k ==> Zigzag(block, j) == 0
    requires k == 64 || Zigzag(block, k) != 0
    ensures var zeros, l := k - prev - 1, AcLayout(block, tbl, prev);
      if k == 64 then l == if prev == 63 then [] else [Huff(false, tbl, 0x00)]
      else
        var v := Zigzag(block, k);
        l == ZeroRuns(tbl, zeros / 16) + [Huff(false, tbl, 16 * (zeros % 16) + Category(v)), Additional(v)]
          + AcLayout(block, tbl, k)
  {
    hide Zigzag, Category, Additional, ZeroRuns, NextNonzero;
    assert NextNonzero(block, prev + 1) == k;
  }

  lemma MoreZeroRuns(tbl: nat, r: nat)
    requires r > 15
    ensures r % 16 == (r - 16) % 16
    ensures ZeroRuns(tbl, r / 16) == [Huff(false, tbl, 0xF0)] + ZeroRuns(tbl, (r - 16) / 16)
  {}

  lemma NoZeroRuns(tbl: nat)
    ensures ZeroRuns(tbl, 0) == []
  {}
}
