/** Huffman tables as they travel in a DHT marker, the canonical codes they stand for
    (T.81 Annex C) and the bit-sequential decoder of T.81 section F.2.2.3. */
module HuffmanTable {
  import opened Bits

  /** bits[l] is the number of codes of length l (bits[0] is unused); huffval lists the symbols by code length. */
  datatype HuffTable = HuffTable(bits: seq<byte>, huffval: seq<byte>)

  ghost predicate WellFormed(t: HuffTable) {
    |t.bits| == 17 && |t.huffval| == 256
  }

  /** Code and code length of every symbol; length 0 marks a symbol without a code. */
  datatype DerivedTable = DerivedTable(ehufco: seq<nat>, ehufsi: seq<nat>)

  /** How many symbols have a code shorter than l. */
  function FirstIndex(bits: seq<byte>, l: nat): (p: nat)
    requires |bits| == 17 && 1 <= l <= 17
  {
    if l == 1 then 0 else FirstIndex(bits, l - 1) + bits[l - 1]
  }

  function Total(bits: seq<byte>): (n: nat)
    requires |bits| == 17
  {
    FirstIndex(bits, 17)
  }

  /** The numerically smallest code of length l. */
  function FirstCode(bits: seq<byte>, l: nat): (c: nat)
    requires |bits| == 17 && 1 <= l <= 17
  {
    if l == 1 then 0 else 2 * (FirstCode(bits, l - 1) + bits[l - 1])
  }

  /** The sum over all codes of length at most l of 2^-length, in units of 2^-16. */
  function KraftUpTo(bits: seq<byte>, l: nat): (k: nat)
    requires |bits| == 17 && l <= 16
  {
    if l == 0 then 0 else KraftUpTo(bits, l - 1) + bits[l] * Pow2(16 - l)
  }

  function MaxSymbol(isDC: bool): byte { if isDC then 15 else 255 }

  ghost predicate Distinct(vals: seq<byte>, n: nat)
    requires n <= |vals|
  {
    forall p, q :: 0 <= p < q < n ==> vals[p] != vals[q]
  }

  /** What makes a table legal: few enough symbols, a Kraft sum strictly below one,
      and distinct symbols within the range of the table class. */
  ghost predicate Acceptable(t: HuffTable, isDC: bool)
    requires WellFormed(t)
  {
    && Total(t.bits) <= 256
    && KraftUpTo(t.bits, 16) < Pow2(16)
    && Distinct(t.huffval, Total(t.bits))
    && forall p :: 0 <= p < Total(t.bits) ==> t.huffval[p] <= MaxSymbol(isDC)
  }

  /** Length of the p-th code. */
  function SizeFrom(bits: seq<byte>, p: nat, l: nat): (s: nat)
    requires |bits| == 17 && 1 <= l <= 16
    requires FirstIndex(bits, l) <= p < Total(bits)
    ensures l <= s <= 16
    ensures FirstIndex(bits, s) <= p < FirstIndex(bits, s) + bits[s]
    decreases 17 - l
  {
    if p < FirstIndex(bits, l) + bits[l] then l
    else
      assert FirstIndex(bits, l + 1) == FirstIndex(bits, l) + bits[l];
      SizeFrom(bits, p, l + 1)
  }

  function SizeOf(bits: seq<byte>, p: nat): (s: nat)
    requires |bits| == 17 && p < Total(bits)
    ensures 1 <= s <= 16
    ensures FirstIndex(bits, s) <= p < FirstIndex(bits, s) + bits[s]
  {
    SizeFrom(bits, p, 1)
  }

  /** The p-th canonical code. */
  function CodeOf(bits: seq<byte>, p: nat): (c: nat)
    requires |bits| == 17 && p < Total(bits)
  {
    var l := SizeOf(bits, p);
    FirstCode(bits, l) + (p - FirstIndex(bits, l))
  }

  function CodeBits(bits: seq<byte>, p: nat): (b: seq<bool>)
    requires |bits| == 17 && p < Total(bits)
  {
    ToBits(CodeOf(bits, p), SizeOf(bits, p))
  }

  ghost predicate DerivedFrom(d: DerivedTable, t: HuffTable)
    requires WellFormed(t)
  {
    && |d.ehufco| == 256 && |d.ehufsi| == 256
    && Total(t.bits) <= 256
    && (forall p :: 0 <= p < Total(t.bits) ==>
         d.ehufsi[t.huffval[p]] == SizeOf(t.bits, p) && d.ehufco[t.huffval[p]] == CodeOf(t.bits, p))
    && (forall s :: 0 <= s < 256 && d.ehufsi[s] != 0 ==> s in t.huffval[..Total(t.bits)])
  }

  lemma {:induction false} FirstIndexMono(bits: seq<byte>, l: nat, m: nat)
    requires |bits| == 17 && 1 <= l <= m <= 17
    ensures FirstIndex(bits, l) <= FirstIndex(bits, m)
  {
    if l < m {
      FirstIndexMono(bits, l, m - 1);
    }
  }

  /** Lengths are determined by the position among the sorted symbols. */
  lemma SizeUnique(bits: seq<byte>, p: nat, l: nat)
    requires |bits| == 17 && 1 <= l <= 16
    requires FirstIndex(bits, l) <= p < FirstIndex(bits, l + 1)
    ensures p < Total(bits) && SizeOf(bits, p) == l
  {
    FirstIndexMono(bits, l + 1, 17);
    var s := SizeOf(bits, p);
    assert FirstIndex(bits, s + 1) == FirstIndex(bits, s) + bits[s];
    if s < l {
      FirstIndexMono(bits, s + 1, l);
    } else if l < s {
      FirstIndexMono(bits, l + 1, s);
    }
  }

  lemma FirstCodeStep(bits: seq<byte>, l: nat)
    requires |bits| == 17 && 1 <= l <= 16
    ensures FirstIndex(bits, 1) == 0 && FirstCode(bits, 1) == 0 && KraftUpTo(bits, 0) == 0
    ensures FirstCode(bits, l + 1) == 2 * (FirstCode(bits, l) + bits[l])
    ensures FirstIndex(bits, l + 1) == FirstIndex(bits, l) + bits[l]
    ensures KraftUpTo(bits, l) == KraftUpTo(bits, l - 1) + bits[l] * Pow2(16 - l)
  {}

  /** The first code of a longer length continues past every shorter code. */
  lemma {:induction false} FirstCodeGrows(bits: seq<byte>, l: nat, m: nat)
    requires |bits| == 17 && 1 <= l <= m <= 17
    ensures FirstCode(bits, m) >= FirstCode(bits, l) * Pow2(m - l)
  {
    hide *;
    if l < m {
      FirstCodeGrows(bits, l, m - 1);
      FirstCodeStep(bits, m - 1);
      Pow2Step(m - 1 - l);
      Mul2(FirstCode(bits, l), Pow2(m - 1 - l));
    } else {
      Pow2Step(0);
    }
  }

  /** The first code one past length l measures the Kraft sum of the lengths up to l. */
  lemma {:induction false} FirstCodeIsKraft(bits: seq<byte>, l: nat)
    requires |bits| == 17 && l <= 16
    ensures FirstCode(bits, l + 1) * Pow2(16 - l) == 2 * KraftUpTo(bits, l)
  {
    hide *;
    Pow2Step(16 - l);
    if l > 0 {
      var p, f, b := Pow2(16 - l), FirstCode(bits, l), bits[l];
      FirstCodeIsKraft(bits, l - 1);
      FirstCodeStep(bits, l);
      Mul2(f + b, p);
      Distribute(f, b, p);
      Mul2(f, p);
    } else {
      FirstCodeStep(bits, 1);
    }
  }

  /** The validity test made for one length decides the Kraft inequality for all of them. */
  lemma KraftFails(bits: seq<byte>, l: nat)
    requires |bits| == 17 && 1 <= l <= 16
    requires FirstCode(bits, l) + bits[l] >= Pow2(l)
    ensures KraftUpTo(bits, 16) >= Pow2(16)
  {
    var f := FirstCode(bits, l + 1);
    FirstCodeGrows(bits, l + 1, 17);
    FirstCodeIsKraft(bits, 16);
    Pow2Add(l + 1, 16 - l);
    MulMono(Pow2(l + 1), f, Pow2(16 - l));
    assert Pow2(17) == 2 * Pow2(16);
    assert 17 - (l + 1) == 16 - l && l + 1 + (16 - l) == 17;
    assert FirstCode(bits, 17) * Pow2(0) == FirstCode(bits, 17);
  }

  /** Under the Kraft inequality the codes of each length stay clear of the all-ones code. */
  lemma CodesFit(bits: seq<byte>, l: nat)
    requires |bits| == 17 && 1 <= l <= 16
    requires KraftUpTo(bits, 16) < Pow2(16)
    ensures FirstCode(bits, l) + bits[l] < Pow2(l)
  {
    if FirstCode(bits, l) + bits[l] >= Pow2(l) {
      KraftFails(bits, l);
    }
  }

  lemma KraftHolds(bits: seq<byte>, l: nat)
    requires |bits| == 17 && 1 <= l <= 16
    requires FirstCode(bits, l) + bits[l] < Pow2(l)
    requires FirstIndex(bits, l + 1) == FirstIndex(bits, 17)
    ensures KraftUpTo(bits, 16) < Pow2(16)
  {
    hide *;
    var f, p := FirstCode(bits, l + 1), Pow2(16 - l);
    FirstCodeStep(bits, l);
    Pow2Step(16);
    Pow2Step(l);
    FirstCodeIsKraft(bits, l);
    KraftTail(bits, l, 16);
    Pow2Add(l + 1, 16 - l);
    assert l + 1 + (16 - l) == 17;
    Distribute(f, 1, p);
    MulMono(f + 1, Pow2(l + 1), p);
  }

  /** Lengths without codes add nothing to the Kraft sum. */
  lemma {:induction false} KraftTail(bits: seq<byte>, l: nat, m: nat)
    requires |bits| == 17 && l <= m <= 16
    requires FirstIndex(bits, l + 1) == FirstIndex(bits, m + 1)
    ensures KraftUpTo(bits, m) == KraftUpTo(bits, l)
  {
    if l < m {
      FirstIndexMono(bits, l + 1, m);
      KraftTail(bits, l, m - 1);
      assert bits[m] == 0;
    }
  }

  /** Every canonical code fits its length and is not all ones. */
  lemma CodeNotAllOnes(bits: seq<byte>, p: nat)
    requires |bits| == 17 && p < Total(bits) && KraftUpTo(bits, 16) < Pow2(16)
    ensures CodeOf(bits, p) < Pow2(SizeOf(bits, p)) - 1
  {
    CodesFit(bits, SizeOf(bits, p));
  }

  // ---- decoding, T.81 figures F.15 and F.16 ----

  /** Largest code of length l, or -1 when there is none. */
  function MaxCode(bits: seq<byte>, l: nat): (c: int)
    requires |bits| == 17 && 1 <= l <= 16
  {
    if bits[l] == 0 then -1 else FirstCode(bits, l) + bits[l] - 1
  }

  /** Continues decoding after l bits with value code; yields the index of the symbol and the unread bits. */
  function DecodeIndexFrom(bits: seq<byte>, s: seq<bool>, code: nat, l: nat): (r: Option<(nat, seq<bool>)>)
    requires |bits| == 17 && l <= 16
    requires l >= 1 ==> code >= FirstCode(bits, l)
    decreases 16 - l
  {
    if l >= 1 && code <= MaxCode(bits, l) then Some((FirstIndex(bits, l) + (code - FirstCode(bits, l)), s))
    else if l == 16 || s == [] then None
    else DecodeIndexFrom(bits, s[1..], 2 * code + (if s[0] then 1 else 0), l + 1)
  }

  /** Decoding only ever yields indices of existing symbols and consumes input. */
  lemma {:induction false} DecodeIndexBound(bits: seq<byte>, s: seq<bool>, code: nat, l: nat)
    requires |bits| == 17 && l <= 16
    requires l >= 1 ==> code >= FirstCode(bits, l)
    ensures var r := DecodeIndexFrom(bits, s, code, l); r.Some? ==> r.value.0 < Total(bits) && |r.value.1| <= |s|
    decreases 16 - l
  {
    if l >= 1 && code <= MaxCode(bits, l) {
      FirstIndexMono(bits, l + 1, 17);
    } else if l < 16 && s != [] {
      DecodeStep(bits, s, code, 2 * code + (if s[0] then 1 else 0), l);
      hide *;
      DecodeIndexBound(bits, s[1..], 2 * code + (if s[0] then 1 else 0), l + 1);
    }
  }

  function DecodeIndex(bits: seq<byte>, s: seq<bool>): (r: Option<(nat, seq<bool>)>)
    requires |bits| == 17
    ensures r.Some? ==> r.value.0 < Total(bits) && |r.value.1| <= |s|
  {
    DecodeIndexBound(bits, s, 0, 0);
    DecodeIndexFrom(bits, s, 0, 0)
  }

  /** Reading the rest of a code whose first bits have been consumed. */
  lemma {:induction false} DecodeCodeFrom(bits: seq<byte>, prefix: seq<bool>, suffix: seq<bool>, rest: seq<bool>,
                                          size: nat)
    requires |bits| == 17 && 1 <= size <= 16 && size == |prefix| + |suffix|
    requires FirstCode(bits, size) <= Value(prefix + suffix) < FirstCode(bits, size) + bits[size]
    requires prefix != [] ==> Value(prefix) >= FirstCode(bits, |prefix|)
    ensures DecodeIndexFrom(bits, suffix + rest, Value(prefix), |prefix|)
         == Some((FirstIndex(bits, size) + (Value(prefix + suffix) - FirstCode(bits, size)), rest))
    decreases |suffix|
  {
    hide *;
    if suffix == [] {
      assert suffix + rest == rest;
      assert prefix + suffix == prefix;
      DecodeLast(bits, rest, Value(prefix), size);
    } else {
      if prefix != [] {
        LongerThan(bits, prefix, suffix);
        MaxCodeLast(bits, |prefix|, Value(prefix));
      }
      var prefix', suffix' := prefix + [suffix[0]], suffix[1..];
      ValueSnoc(prefix, suffix[0]);
      assert (suffix + rest)[1..] == suffix' + rest;
      DecodeStep(bits, suffix + rest, Value(prefix), Value(prefix'), |prefix|);
      assert prefix' + suffix' == prefix + suffix;
      DecodeCodeFrom(bits, prefix', suffix', rest, size);
    }
  }

  lemma MaxCodeLast(bits: seq<byte>, l: nat, code: nat)
    requires |bits| == 17 && 1 <= l <= 16 && FirstCode(bits, l) <= code
    ensures code > MaxCode(bits, l) <==> code >= FirstCode(bits, l) + bits[l]
  {}

  /** A value among the codes of its length is complete. */
  lemma DecodeLast(bits: seq<byte>, s: seq<bool>, code: nat, l: nat)
    requires |bits| == 17 && 1 <= l <= 16
    requires FirstCode(bits, l) <= code < FirstCode(bits, l) + bits[l]
    ensures DecodeIndexFrom(bits, s, code, l) == Some((FirstIndex(bits, l) + (code - FirstCode(bits, l)), s))
  {}

  /** A value above all codes of its length takes in one more bit. */
  lemma DecodeStep(bits: seq<byte>, s: seq<bool>, code: nat, code': nat, l: nat)
    requires |bits| == 17 && l < 16 && s != []
    requires l >= 1 ==> code > MaxCode(bits, l) && code >= FirstCode(bits, l)
    requires code' == 2 * code + (if s[0] then 1 else 0)
    ensures code' >= FirstCode(bits, l + 1)
    ensures DecodeIndexFrom(bits, s, code, l) == DecodeIndexFrom(bits, s[1..], code', l + 1)
  {
    hide FirstIndex, FirstCode, MaxCode;
    if l >= 1 { MaxCodeLast(bits, l, code); }
    NextFirstCode(bits, l);
  }

  lemma NextFirstCode(bits: seq<byte>, l: nat)
    requires |bits| == 17 && l <= 16
    ensures FirstCode(bits, l + 1) == if l == 0 then 0 else 2 * (FirstCode(bits, l) + bits[l])
  {}

  /** A proper prefix of a canonical code is larger than every code of the prefix's length. */
  lemma LongerThan(bits: seq<byte>, prefix: seq<bool>, suffix: seq<bool>)
    requires |bits| == 17 && prefix != [] && suffix != [] && |prefix| + |suffix| <= 16
    requires FirstCode(bits, |prefix| + |suffix|) <= Value(prefix + suffix)
    ensures Value(prefix) >= FirstCode(bits, |prefix|) + bits[|prefix|]
  {
    hide *;
    var l, m := |prefix|, |suffix|;
    var lim := FirstCode(bits, l) + bits[l];
    FirstCodeGrows(bits, l + 1, l + m);
    FirstCodeStep(bits, l);
    Pow2Step(m - 1);
    Mul2(lim, Pow2(m - 1));
    assert (l + m) - (l + 1) == m - 1;
    ValueConcat(prefix, suffix);
    QuotientAtLeast(Value(prefix + suffix), Value(prefix), Value(suffix), Pow2(m), lim);
  }

  lemma MaxCodeBelow(bits: seq<byte>, l: nat)
    requires |bits| == 17 && 1 <= l <= 16 && KraftUpTo(bits, 16) < Pow2(16)
    ensures MaxCode(bits, l) < Pow2(l) - 1 && FirstCode(bits, l + 1) <= Pow2(l + 1) - 1
  {
    CodesFit(bits, l);
  }

  lemma OnesStep(n: nat)
    requires n > 0
    ensures Ones(n)[1..] == Ones(n - 1) && Ones(n)[0]
  {}

  lemma DecodeStops(bits: seq<byte>, s: seq<bool>, code: nat, l: nat)
    requires |bits| == 17 && l <= 16 && (l == 16 || s == [])
    requires l >= 1 ==> code > MaxCode(bits, l) && code >= FirstCode(bits, l)
    ensures DecodeIndexFrom(bits, s, code, l) == None
  {}

  lemma QuotientAtLeast(c: nat, code: nat, w: nat, h: nat, lim: nat)
    requires c == code * h + w && w < h && c >= lim * h
    ensures code >= lim
  {
    if code + 1 <= lim {
      MulMono(code + 1, lim, h);
      Distribute(code, 1, h);
    }
  }

  /** Decoding any canonical code, whatever follows it, yields its symbol and leaves what follows. */
  lemma DecodeCode(bits: seq<byte>, p: nat, rest: seq<bool>)
    requires |bits| == 17 && p < Total(bits) && KraftUpTo(bits, 16) < Pow2(16)
    ensures DecodeIndex(bits, CodeBits(bits, p) + rest) == Some((p, rest))
  {
    hide FirstIndex, FirstCode, KraftUpTo, DecodeIndexFrom, ToBits, SizeFrom, Pow2;
    CodeNotAllOnes(bits, p);
    DecodeCodeAt(bits, CodeOf(bits, p), SizeOf(bits, p), rest);
  }

  lemma DecodeCodeAt(bits: seq<byte>, c: nat, l: nat, rest: seq<bool>)
    requires |bits| == 17 && 1 <= l <= 16 && c < Pow2(l)
    requires FirstCode(bits, l) <= c < FirstCode(bits, l) + bits[l]
    ensures DecodeIndexFrom(bits, ToBits(c, l) + rest, 0, 0)
         == Some((FirstIndex(bits, l) + (c - FirstCode(bits, l)), rest))
  {
    hide *;
    Pow2Step(0);
    ValueOfSmall(c, l);
    assert [] + ToBits(c, l) == ToBits(c, l);
    DecodeCodeFrom(bits, [], ToBits(c, l), rest, l);
  }

  /** No code is a prefix of another one. */
  lemma PrefixFree(bits: seq<byte>, p: nat, q: nat, tail: seq<bool>)
    requires |bits| == 17 && p < Total(bits) && q < Total(bits) && KraftUpTo(bits, 16) < Pow2(16)
    requires CodeBits(bits, q) == CodeBits(bits, p) + tail
    ensures p == q && tail == []
  {
    hide *;
    DecodeCode(bits, p, tail);
    DecodeCode(bits, q, []);
    assert CodeBits(bits, q) + [] == CodeBits(bits, p) + tail;
  }

  /** One-bits alone never complete a code: padding cannot be mistaken for data. */
  lemma PaddingIsNoCode(bits: seq<byte>, n: nat)
    requires |bits| == 17 && KraftUpTo(bits, 16) < Pow2(16)
    ensures DecodeIndex(bits, Ones(n)) == None
  {
    assert Pow2(0) == 1;
    assert DecodeIndex(bits, Ones(n)) == DecodeIndexFrom(bits, Ones(n), 0, 0);
    hide *;
    PaddingIsNoCodeFrom(bits, n, 0);
  }

  lemma {:induction false} PaddingIsNoCodeFrom(bits: seq<byte>, n: nat, l: nat)
    requires |bits| == 17 && KraftUpTo(bits, 16) < Pow2(16) && l <= 16
    requires l >= 1 ==> FirstCode(bits, l) <= Pow2(l) - 1
    ensures DecodeIndexFrom(bits, Ones(n), Pow2(l) - 1, l) == None
    decreases 16 - l
  {
    hide *;
    Pow2Step(l);
    if l >= 1 { MaxCodeBelow(bits, l); }
    if l < 16 && n > 0 {
      assert Ones(n)[1..] == Ones(n - 1) && Ones(n)[0] by { OnesStep(n); }
      DecodeStep(bits, Ones(n), Pow2(l) - 1, Pow2(l + 1) - 1, l);
      PaddingIsNoCodeFrom(bits, n - 1, l + 1);
    } else {
      DecodeStops(bits, Ones(n), Pow2(l) - 1, l);
    }
  }
}
