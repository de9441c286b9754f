/** The statistics pass (jchuff.c, htest_one_block and encode_mcu_gather): it counts exactly the symbols
    that the encoding pass writes. */
module Statistics {
  import opened Bits
  import opened Symbols
  import opened BlockEncoder
  import opened HuffmanForest

  /** How often a Huffman symbol is written by a sequence of operations. */
  ghost function Uses(ops: seq<Op>, isDC: bool, tbl: nat, sym: nat): nat {
    multiset(ops)[Huff(isDC, tbl, sym)]
  }

  lemma UsesConcat(a: seq<Op>, b: seq<Op>, isDC: bool, tbl: nat, sym: nat)
    ensures Uses(a + b, isDC, tbl, sym) == Uses(a, isDC, tbl, sym) + Uses(b, isDC, tbl, sym)
  {}

  /** The counts have grown by the uses of the DC table dcNo and the AC table acNo. */
  ghost predicate Tallied(dc: seq<nat>, ac: seq<nat>, dc0: seq<nat>, ac0: seq<nat>, ops: seq<Op>, dcNo: nat,
                          acNo: nat) {
    && |dc| == |ac| == |dc0| == |ac0| == NSYM
    && (forall s :: 0 <= s < NSYM ==> dc[s] == dc0[s] + Uses(ops, true, dcNo, s))
    && (forall s :: 0 <= s < NSYM ==> ac[s] == ac0[s] + Uses(ops, false, acNo, s))
  }

  lemma TalliedNothing(dc: seq<nat>, ac: seq<nat>, dcNo: nat, acNo: nat)
    requires |dc| == |ac| == NSYM
    ensures Tallied(dc, ac, dc, ac, [], dcNo, acNo)
  {}

  lemma TalliedAc(dc: seq<nat>, ac: seq<nat>, dc0: seq<nat>, ac0: seq<nat>, ops: seq<Op>, dcNo: nat, acNo: nat,
                  sym: nat)
    requires Tallied(dc, ac, dc0, ac0, ops, dcNo, acNo) && sym < NSYM
    ensures Tallied(dc, ac[sym := ac[sym] + 1], dc0, ac0, ops + [Huff(false, acNo, sym)], dcNo, acNo)
  {
    forall isDC, tbl, s ensures Uses(ops + [Huff(false, acNo, sym)], isDC, tbl, s)
      == Uses(ops, isDC, tbl, s) + (if !isDC && tbl == acNo && s == sym then 1 else 0) {}
  }

  lemma TalliedDc(dc: seq<nat>, ac: seq<nat>, dc0: seq<nat>, ac0: seq<nat>, ops: seq<Op>, dcNo: nat, acNo: nat,
                  sym: nat)
    requires Tallied(dc, ac, dc0, ac0, ops, dcNo, acNo) && sym < NSYM
    ensures Tallied(dc[sym := dc[sym] + 1], ac, dc0, ac0, ops + [Huff(true, dcNo, sym)], dcNo, acNo)
  {
    forall isDC, tbl, s ensures Uses(ops + [Huff(true, dcNo, sym)], isDC, tbl, s)
      == Uses(ops, isDC, tbl, s) + (if isDC && tbl == dcNo && s == sym then 1 else 0) {}
  }

  lemma TalliedOther(dc: seq<nat>, ac: seq<nat>, dc0: seq<nat>, ac0: seq<nat>, ops: seq<Op>, dcNo: nat, acNo: nat,
                     op: Op)
    requires Tallied(dc, ac, dc0, ac0, ops, dcNo, acNo) && !op.Huff?
    ensures Tallied(dc, ac, dc0, ac0, ops + [op], dcNo, acNo)
  {
    forall isDC, tbl, s ensures Uses(ops + [op], isDC, tbl, s) == Uses(ops, isDC, tbl, s) {}
  }

  /** Trial-encodes the DC difference of a block. */
  method CountDc(diff: int, dcCounts: array<nat>, acCounts: array<nat>, ghost dcNo: nat, ghost acNo: nat)
    returns (ok: bool)
    requires dcCounts.Length == acCounts.Length == NSYM && dcCounts != acCounts
    modifies dcCounts
    ensures ok <==> !DcTrace(diff, dcNo).bad
    ensures ok ==> Tallied(dcCounts[..], acCounts[..], old(dcCounts[..]), old(acCounts[..]), DcTrace(diff, dcNo).ops,
      dcNo, acNo)
  {
    hide Tallied, Uses, BitLen;
    var temp := diff;
    if temp < 0 {
      temp := -temp;
    }
    var nbits := MagnitudeBits(temp);
    if nbits > MAX_COEF_BITS + 1 {
      return false;
    }
    ghost var dc0, ac0, op := dcCounts[..], acCounts[..], Huff(true, dcNo, nbits);
    TalliedNothing(dc0, ac0, dcNo, acNo);
    TalliedDc(dc0, ac0, dc0, ac0, [], dcNo, acNo, nbits);
    dcCounts[nbits] := dcCounts[nbits] + 1;
    assert dcCounts[..] == dc0[nbits := dc0[nbits] + 1];
    assert [] + [op] == [op];
    if nbits > 0 {
      TalliedOther(dcCounts[..], ac0, dc0, ac0, [op], dcNo, acNo, Extra(diff));
    } else {
      assert [op] + [] == [op];
    }
    ok := true;
  }

  /** The statistics of the AC coefficients up to some point. */
  ghost predicate CountedTo(tr: Trace, done: seq<Op>, rest: Trace, dc: seq<nat>, ac: seq<nat>, dc0: seq<nat>,
                            ac0: seq<nat>,
                            dcNo: nat, acNo: nat) {
    tr.ops == done + rest.ops && tr.bad == rest.bad && Tallied(dc, ac, dc0, ac0, done, dcNo, acNo)
  }

  lemma CountRun(block: Block, k: nat, r: nat, tr: Trace, done: seq<Op>,
                 dc: seq<nat>, ac: seq<nat>, dc0: seq<nat>, ac0: seq<nat>, dcNo: nat, acNo: nat)
    requires 1 <= k < 64 && r > 15 && Zigzag(block, k) != 0
    requires CountedTo(tr, done, AcTrace(block, acNo, k, r), dc, ac, dc0, ac0, dcNo, acNo)
    ensures |ac| == NSYM
    ensures CountedTo(tr, done + [Huff(false, acNo, ZRL)], AcTrace(block, acNo, k, r - 16), dc, ac[ZRL := ac[ZRL] + 1],
                      dc0, ac0, dcNo, acNo)
  {
    hide AcTrace, Zigzag, Uses;
    AcStep(block, acNo, k, r);
    TalliedAc(dc, ac, dc0, ac0, done, dcNo, acNo, ZRL);
    assert done + [Huff(false, acNo, ZRL)] + AcTrace(block, acNo, k, r - 16).ops
        == done + ([Huff(false, acNo, ZRL)] + AcTrace(block, acNo, k, r - 16).ops);
  }

  lemma CountNonzero(block: Block, k: nat, r: nat, n: nat, tr: Trace, done: seq<Op>,
                     dc: seq<nat>, ac: seq<nat>, dc0: seq<nat>, ac0: seq<nat>, dcNo: nat, acNo: nat)
    returns (done': seq<Op>)
    requires 1 <= k < 64 && r <= 15 && Zigzag(block, k) != 0 && n == BitLen(Abs(Zigzag(block, k))) <= MAX_COEF_BITS
    requires CountedTo(tr, done, AcTrace(block, acNo, k, r), dc, ac, dc0, ac0, dcNo, acNo)
    ensures |ac| == NSYM
    ensures CountedTo(tr, done', AcTrace(block, acNo, k + 1, 0), dc, ac[16 * r + n := ac[16 * r + n] + 1], dc0, ac0,
      dcNo, acNo)
  {
    hide AcTrace, Zigzag, BitLen, Uses;
    AcStep(block, acNo, k, r);
    var op, extra, rest := Huff(false, acNo, 16 * r + n), Extra(Zigzag(block, k)), AcTrace(block, acNo, k + 1, 0);
    done' := done + [op] + [extra];
    TalliedAc(dc, ac, dc0, ac0, done, dcNo, acNo, 16 * r + n);
    TalliedOther(dc, ac[16 * r + n := ac[16 * r + n] + 1], dc0, ac0, done + [op], dcNo, acNo, extra);
    assert done' + rest.ops == done + ([op, extra] + rest.ops);
  }

  lemma CountBad(block: Block, k: nat, r: nat, tr: Trace, done: seq<Op>,
                 dc: seq<nat>, ac: seq<nat>, dc0: seq<nat>, ac0: seq<nat>, dcNo: nat, acNo: nat)
    requires 1 <= k < 64 && r <= 15 && Zigzag(block, k) != 0 && BitLen(Abs(Zigzag(block, k))) > MAX_COEF_BITS
    requires CountedTo(tr, done, AcTrace(block, acNo, k, r), dc, ac, dc0, ac0, dcNo, acNo)
    ensures tr.bad
  {
    hide AcTrace, Zigzag, BitLen, Tallied;
    AcStep(block, acNo, k, r);
  }

  lemma CountEnd(block: Block, r: nat, tr: Trace, done: seq<Op>,
                 dc: seq<nat>, ac: seq<nat>, dc0: seq<nat>, ac0: seq<nat>, dcNo: nat, acNo: nat)
    requires CountedTo(tr, done, AcTrace(block, acNo, 64, r), dc, ac, dc0, ac0, dcNo, acNo)
    ensures |ac| == NSYM && !tr.bad
    ensures r > 0 ==> Tallied(dc, ac[EOB := ac[EOB] + 1], dc0, ac0, tr.ops, dcNo, acNo)
    ensures r == 0 ==> Tallied(dc, ac, dc0, ac0, tr.ops, dcNo, acNo)
  {
    hide AcTrace, Zigzag, BitLen, Uses;
    AcStep(block, acNo, 64, r);
    if r > 0 {
      TalliedAc(dc, ac, dc0, ac0, done, dcNo, acNo, EOB);
    } else {
      assert tr.ops == done;
    }
  }

  /** Trial-encodes the AC coefficients of a block. */
  method CountAc(block: Block, dcCounts: array<nat>, acCounts: array<nat>, ghost dcNo: nat, ghost acNo: nat)
    returns (ok: bool)
    requires dcCounts.Length == acCounts.Length == NSYM && dcCounts != acCounts
    modifies acCounts
    ensures ok <==> !AcTrace(block, acNo, 1, 0).bad
    ensures ok ==> Tallied(dcCounts[..], acCounts[..], old(dcCounts[..]), old(acCounts[..]),
      AcTrace(block, acNo, 1, 0).ops, dcNo, acNo)
  {
    hide AcTrace, Zigzag, BitLen, CountedTo, Tallied;
    ghost var dc0, ac0, tr := dcCounts[..], acCounts[..], AcTrace(block, acNo, 1, 0);
    ghost var done: seq<Op> := [];
    CountStart(tr, dc0, ac0, dcNo, acNo);
    var r := 0;
    for k := 1 to 64
      invariant r < k && dcCounts[..] == dc0
      invariant CountedTo(tr, done, AcTrace(block, acNo, k, r), dc0, acCounts[..], dc0, ac0, dcNo, acNo)
    {
      AcStep(block, acNo, k, r);
      var temp := Zigzag(block, k);
      if temp == 0 {
        r := r + 1;
      } else {
        while r > 15
          invariant r < k && dcCounts[..] == dc0
          invariant CountedTo(tr, done, AcTrace(block, acNo, k, r), dc0, acCounts[..], dc0, ac0, dcNo, acNo)
        {
          CountRun(block, k, r, tr, done, dc0, acCounts[..], dc0, ac0, dcNo, acNo);
          ghost var ac := acCounts[..];
          acCounts[0xF0] := acCounts[0xF0] + 1;
          assert acCounts[..] == ac[ZRL := ac[ZRL] + 1];
          done := done + [Huff(false, acNo, ZRL)];
          r := r - 16;
        }
        if temp < 0 {
          temp := -temp;
        }
        var nbits := NonzeroMagnitudeBits(temp);
        if nbits > MAX_COEF_BITS {
          CountBad(block, k, r, tr, done, dc0, acCounts[..], dc0, ac0, dcNo, acNo);
          return false;
        }
        done := CountNonzero(block, k, r, nbits, tr, done, dc0, acCounts[..], dc0, ac0, dcNo, acNo);
        ghost var ac := acCounts[..];
        acCounts[16 * r + nbits] := acCounts[16 * r + nbits] + 1;
        assert acCounts[..] == ac[16 * r + nbits := ac[16 * r + nbits] + 1];
        r := 0;
      }
    }
    CountEnd(block, r, tr, done, dc0, acCounts[..], dc0, ac0, dcNo, acNo);
    if r > 0 {
      ghost var ac := acCounts[..];
      acCounts[0] := acCounts[0] + 1;
      assert acCounts[..] == ac[EOB := ac[EOB] + 1];
    }
    ok := true;
  }

  lemma CountStart(tr: Trace, dc: seq<nat>, ac: seq<nat>, dcNo: nat, acNo: nat)
    requires |dc| == |ac| == NSYM
    ensures CountedTo(tr, [], tr, dc, ac, dc, ac, dcNo, acNo)
  {
    assert [] + tr.ops == tr.ops;
  }

  lemma TalliedThen(dc: seq<nat>, ac: seq<nat>, dc1: seq<nat>, ac1: seq<nat>, dc0: seq<nat>, ac0: seq<nat>,
                    a: seq<Op>, b: seq<Op>, dcNo: nat, acNo: nat)
    requires Tallied(dc1, ac1, dc0, ac0, a, dcNo, acNo) && Tallied(dc, ac, dc1, ac1, b, dcNo, acNo)
    ensures Tallied(dc, ac, dc0, ac0, a + b, dcNo, acNo)
  {
    forall isDC, tbl, s ensures Uses(a + b, isDC, tbl, s) == Uses(a, isDC, tbl, s) + Uses(b, isDC, tbl, s) {
      UsesConcat(a, b, isDC, tbl, s);
    }
  }

  /** htest_one_block: counts what encode_one_block writes for the same block and prediction, and fails if that does. */
  method CountBlock(block: Block, lastDcVal: int, dcCounts: array<nat>, acCounts: array<nat>, ghost dcNo: nat,
                    ghost acNo: nat)
    returns (ok: bool)
    requires dcCounts.Length == acCounts.Length == NSYM && dcCounts != acCounts
    modifies dcCounts, acCounts
    ensures ok <==> !BlockTrace(block, lastDcVal, dcNo, acNo).bad
    ensures ok ==> Tallied(dcCounts[..], acCounts[..], old(dcCounts[..]), old(acCounts[..]),
                           BlockTrace(block, lastDcVal, dcNo, acNo).ops, dcNo, acNo)
  {
    hide AcTrace, DcTrace, Tallied;
    ghost var dc0, ac0 := dcCounts[..], acCounts[..];
    ok := CountDc(block[0] - lastDcVal, dcCounts, acCounts, dcNo, acNo);
    if !ok {
      return;
    }
    ghost var dc1, ac1 := dcCounts[..], acCounts[..];
    ok := CountAc(block, dcCounts, acCounts, dcNo, acNo);
    if ok {
      TalliedThen(dcCounts[..], acCounts[..], dc1, ac1, dc0, ac0,
                  DcTrace(block[0] - lastDcVal, dcNo).ops, AcTrace(block, acNo, 1, 0).ops, dcNo, acNo);
    }
  }
}
