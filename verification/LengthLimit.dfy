/** Limiting code lengths to 16 bits by rewriting the length histogram (jchuff.c lines 801-817, T.81 figure K.3). */
module LengthLimit {
  import opened Bits
  import opened Sums

  const MAX_CLEN: nat := 32  // the longest code length the builder may produce

  /** bits[l] * 2^(32 - l): the share of each length in the Kraft sum, in units of 2^-32. */
  function Shares(bits: seq<byte>): (r: seq<int>)
    requires |bits| == 33
    ensures |r| == 33
  {
    seq(33, l requires 0 <= l < 33 => bits[l] * Pow2(32 - l))
  }

  /** A histogram with no length above top and few enough symbols for 8-bit counters, whose Kraft sum is a positive
      whole number: one for a complete code. */
  ghost predicate Whole(bits: seq<byte>, top: nat) {
    && |bits| == 33 && top <= 32
    && bits[0] == 0
    && (forall l :: top < l <= 32 ==> bits[l] == 0)
    && Sum(bits) <= 255
    && Sum(Shares(bits)) > 0 && Sum(Shares(bits)) % Pow2(32) == 0
  }

  /** How many complete codes the lengths would make up. */
  lemma WholeIs(bits: seq<byte>, top: nat) returns (m: nat)
    requires Whole(bits, top)
    ensures m >= 1 && Sum(Shares(bits)) == m * Pow2(32) >= Pow2(32)
  {
    hide Sum, Pow2;
    var x, p := Sum(Shares(bits)), Pow2(32);
    m := x / p;
    assert x == m * p;
    MulMono(1, m, p);
  }

  lemma StillWhole(bits: seq<byte>, top: nat, m: nat)
    requires |bits| == 33 && top <= 32 && bits[0] == 0 && (forall l :: top < l <= 32 ==> bits[l] == 0)
    requires Sum(bits) <= 255 && m >= 1 && Sum(Shares(bits)) == m * Pow2(32)
    ensures Whole(bits, top)
  {
    hide Sum;
    DivModUnique(m * Pow2(32), Pow2(32), m, 0);
    MulMono(1, m, Pow2(32));
  }

  /** Changing the count of length l by d. */
  lemma SharesUpdate(bits: seq<byte>, l: nat, v: byte, d: int)
    requires |bits| == 33 && l <= 32 && v == bits[l] + d
    ensures Sum(Shares(bits[l := v])) == Sum(Shares(bits)) + d * Pow2(32 - l)
    ensures Sum(bits[l := v]) == Sum(bits) + d
  {
    hide Pow2, Sum;
    assert Shares(bits[l := v]) == Shares(bits)[l := v * Pow2(32 - l)];
    SumUpdate(Shares(bits), l, v * Pow2(32 - l));
    Distribute(bits[l], d, Pow2(32 - l));
    SumUpdate(bits, l, v);
  }

  /** Below the top length every share is an even multiple of the top share. */
  lemma EvenBelow(bits: seq<byte>, i: nat) returns (q: int)
    requires Whole(bits, i) && i >= 1
    ensures bits[i] == 2 * q
  {
    hide Pow2, Sum;
    var u := Pow2(32 - i);
    var rest := Shares(bits)[i := 0];
    SumUpdate(Shares(bits), i, 0);
    var halves := seq(33, l requires 0 <= l < 33 => if l < i then bits[l] * Pow2(i - l - 1) else 0);
    forall l | 0 <= l < 33 ensures rest[l] == halves[l] * (2 * u) {
      if l < i { HalfShare(bits[l], i, l); }
    }
    SumScaled(rest, halves, 2 * u);
    Pow2Add(i - 1, 33 - i);
    Pow2Step(32 - i);
    assert (i - 1) + (33 - i) == 32;
    var m := WholeIs(bits, i);
    Associate(m, Pow2(i - 1), 2 * u);
    q := m * Pow2(i - 1) - Sum(halves);
    EvenQuotient(bits[i], u, m * Pow2(i - 1), Sum(halves));
  }

  lemma HalfShare(b: nat, i: nat, l: nat)
    requires l < i <= 32
    ensures b * Pow2(32 - l) == b * Pow2(i - l - 1) * (2 * Pow2(32 - i))
  {
    hide Pow2;
    Pow2Add(i - l - 1, 33 - i);
    Pow2Step(32 - i);
    assert (i - l - 1) + (33 - i) == 32 - l;
    Associate(b, Pow2(i - l - 1), 2 * Pow2(32 - i));
  }

  lemma Associate(a: int, b: int, c: int)
    ensures a * (b * c) == (a * b) * c
  {}

  lemma EvenQuotient(b: int, u: int, p: int, h: int)
    requires u > 0 && h * (2 * u) + b * u == p * (2 * u)
    ensures b == 2 * (p - h)
  {
    assert (b - 2 * (p - h)) * u == 0;
    if b > 2 * (p - h) {
      MulAtLeast(b - 2 * (p - h), u);
    } else if b < 2 * (p - h) {
      MulAtLeast(2 * (p - h) - b, u);
    }
  }

  lemma {:induction false} SumLe(a: seq<int>, b: seq<int>, u: int)
    requires |a| == |b| && forall i :: 0 <= i < |a| ==> a[i] <= b[i] * u
    ensures Sum(a) <= Sum(b) * u
  {
    if a != [] {
      var n := |a| - 1;
      SumLe(a[..n], b[..n], u);
      Distribute(Sum(b[..n]), b[n], u);
    }
  }

  /** Somewhere below length i - 1 there is a code whose place can be split. */
  lemma ShorterCodeExists(bits: seq<byte>, i: nat)
    requires Whole(bits, i) && 17 <= i
    ensures exists j :: 1 <= j <= i - 2 && bits[j] > 0
  {
    hide Pow2, Sum;
    var m := WholeIs(bits, i);
    if forall j :: 1 <= j <= i - 2 ==> bits[j] == 0 {
      var u := Pow2(33 - i);
      forall l | 0 <= l < 33 ensures Shares(bits)[l] <= bits[l] * u {
        if bits[l] > 0 {
          Pow2Mono(32 - l, 33 - i);
          ScaleMono(bits[l], Pow2(32 - l), u);
        }
      }
      SumLe(Shares(bits), bits, u);
      Pow2Add(i - 1, 33 - i);
      assert (i - 1) + (33 - i) == 32;
      Pow2Mono(16, i - 1);
      Pow2Sixteen();
      MulMono(Sum(bits), 255, u);
      MulMono(256, Pow2(i - 1), u);
      assert false;
    }
  }

  lemma ScaleMono(a: int, b: int, c: int)
    requires a >= 0 && b <= c
    ensures a * b <= a * c
  {
    assert a * (c - b) >= 0;
  }

  lemma Pow2Sixteen()
    ensures Pow2(16) == 65536
  {
    assert Pow2(8) == 256;
  }

  /** The histogram after one adjustment: two codes of length i become one of length i - 1,
      and one code of length j becomes two of length j + 1. */
  ghost function Adjusted(bits: seq<byte>, i: nat, j: nat): (r: seq<byte>)
    requires |bits| == 33 && 2 <= i <= 32 && 1 <= j <= i - 2
    requires bits[i] >= 2 && bits[j] > 0 && Sum(bits) <= 255
    ensures |r| == 33
  {
    FitsInByte(bits, i, j);
    var b1 := bits[i := bits[i] - 2];
    var b2 := b1[i - 1 := b1[i - 1] + 1];
    var b3 := b2[j + 1 := b2[j + 1] + 2];
    b3[j := b3[j] - 1]
  }

  /** None of the 8-bit counters can wrap. */
  lemma FitsInByte(bits: seq<byte>, i: nat, j: nat)
    requires |bits| == 33 && 2 <= i <= 32 && 1 <= j <= i - 2
    requires bits[i] >= 2 && bits[j] > 0 && Sum(bits) <= 255
    ensures bits[i - 1] <= 252 && bits[j + 1] <= 252
  {
    hide Sum;
    var c := bits[i := 0];
    SumUpdate(bits, i, 0);
    SumUpdate(c, j, 0);
    var d := c[j := 0];
    SumNonneg(d);
    assert d[i - 1] == bits[i - 1] && d[i - 1] <= Sum(d);
    assert d[j + 1] == bits[j + 1] && d[j + 1] <= Sum(d);
    assert Sum(d) <= 252;
  }

  /** One adjustment keeps the number of codes and the Kraft sum. */
  lemma AdjustedComplete(bits: seq<byte>, i: nat, j: nat)
    requires Whole(bits, i) && 17 <= i && 1 <= j <= i - 2 && bits[i] >= 2 && bits[j] > 0
    ensures Whole(Adjusted(bits, i, j), i)
    ensures Sum(Adjusted(bits, i, j)) == Sum(bits) && Sum(Shares(Adjusted(bits, i, j))) == Sum(Shares(bits))
    ensures Adjusted(bits, i, j)[i] == bits[i] - 2
  {
    hide Pow2, Sum, Shares;
    FitsInByte(bits, i, j);
    var b1 := bits[i := bits[i] - 2];
    var b2 := b1[i - 1 := b1[i - 1] + 1];
    var b3 := b2[j + 1 := b2[j + 1] + 2];
    SharesUpdate(bits, i, bits[i] - 2, -2);
    SharesUpdate(b1, i - 1, b1[i - 1] + 1, 1);
    SharesUpdate(b2, j + 1, b2[j + 1] + 2, 2);
    SharesUpdate(b3, j, b3[j] - 1, -1);
    Pow2Step(32 - i);
    Pow2Step(32 - (j + 1));
    assert 32 - (i - 1) == 32 - i + 1 && 32 - j == 32 - (j + 1) + 1;
  }

  /** The longest length in use, from j downwards. */
  function TopUsed(bits: seq<byte>, j: nat): (k: nat)
    requires j < |bits|
    ensures k <= j && (forall l :: k < l <= j ==> bits[l] == 0) && (k > 0 ==> bits[k] > 0)
  {
    if j == 0 || bits[j] > 0 then j else TopUsed(bits, j - 1)
  }

  lemma EvenTop(bits: seq<byte>, i: nat)
    requires Whole(bits, i) && 17 <= i
    ensures bits[i] > 0 ==> bits[i] >= 2
    ensures TopUsed(bits, i - 2) >= 1 && Sum(bits) <= 255
  {
    hide Sum, Shares, Pow2;
    var q := EvenBelow(bits, i);
    ShorterCodeExists(bits, i);
  }

  lemma NoneLeft(bits: seq<byte>, i: nat)
    requires Whole(bits, i) && i >= 1 && bits[i] == 0
    ensures Whole(bits, i - 1)
  {
    hide Sum, Shares, Pow2;
  }

  /** Figure K.3: while length i is in use, two of its codes are replaced and the longest shorter code below i - 1 is
      split; then the next length. */
  ghost function Limited(bits: seq<byte>, i: nat): (r: seq<byte>)
    requires Whole(bits, i)
    ensures i >= 16 ==> Whole(r, 16) && Sum(r) == Sum(bits) && Sum(Shares(r)) == Sum(Shares(bits))
    decreases i, if i < |bits| then bits[i] else 0
  {
    if i <= 16 then bits
    else if bits[i] > 0 then
      EvenTop(bits, i);
      AdjustedComplete(bits, i, TopUsed(bits, i - 2));
      Limited(Adjusted(bits, i, TopUsed(bits, i - 2)), i)
    else
      NoneLeft(bits, i);
      Limited(bits, i - 1)
  }

  lemma LimitedStep(bits: seq<byte>, i: nat)
    requires Whole(bits, i) && 17 <= i
    ensures bits[i] > 0 ==>
      var j := TopUsed(bits, i - 2);
      && bits[i] >= 2 && j >= 1 && bits[j] > 0 && Sum(bits) <= 255 && Whole(Adjusted(bits, i, j), i)
      && Limited(bits, i) == Limited(Adjusted(bits, i, j), i)
    ensures bits[i] == 0 ==> Whole(bits, i - 1) && Limited(bits, i) == Limited(bits, i - 1)
  {
    hide Sum, Adjusted;
    EvenTop(bits, i);
    if bits[i] > 0 {
      AdjustedComplete(bits, i, TopUsed(bits, i - 2));
    } else {
      NoneLeft(bits, i);
    }
  }

  lemma LimitedEnd(bits: seq<byte>)
    requires Whole(bits, 16)
    ensures Limited(bits, 16) == bits
  {
    hide Sum, Shares, Pow2;
  }

  /** Nothing changes when no code is too long. */
  lemma {:induction false} LimitedShort(bits: seq<byte>, i: nat)
    requires Whole(bits, 16) && 16 <= i <= 32
    ensures Whole(bits, i) && Limited(bits, i) == bits
  {
    hide Sum, Shares, Pow2, Limited;
    if i == 16 {
      LimitedEnd(bits);
    } else {
      LimitedShort(bits, i - 1);
      LimitedStep(bits, i);
    }
  }

  /** The body of the loop at lines 802-811: one adjustment. */
  method AdjustOnce(bits: array<byte>, i: nat)
    requires bits.Length == 33 && Whole(bits[..], i) && 17 <= i <= 32 && bits[i] > 0
    modifies bits
    ensures var b, j := old(bits[..]), TopUsed(old(bits[..]), i - 2);
      && b[i] >= 2 && 1 <= j && b[j] > 0 && Sum(b) <= 255
      && bits[..] == Adjusted(b, i, j) && bits[i] < b[i]
  {
    hide Sum, Pow2, Shares, Whole, Limited, Adjusted;
    ghost var b := bits[..];
    LimitedStep(b, i);
    var j := i - 2;
    while bits[j] == 0
      invariant 0 <= j <= i - 2 && TopUsed(b, j) == TopUsed(b, i - 2)
      decreases j
    {
      j := j - 1;
    }
    FitsInByte(b, i, j);
    bits[i] := bits[i] - 2;
    bits[i - 1] := (bits[i - 1] + 1) % 256;
    bits[j + 1] := (bits[j + 1] + 2) % 256;
    bits[j] := bits[j] - 1;
    AdjustedIs(b, i, j, bits[..]);
  }

  /** There are no codes at all. */
  ghost predicate NoLengths(bits: seq<byte>) {
    |bits| == 33 && forall l :: 0 <= l < 33 ==> bits[l] == 0
  }

  /** The loop at lines 801-812: afterwards no code is longer than 16 bits, the number of codes is the same,
      and so is the Kraft sum. */
  method LimitLengths(bits: array<byte>)
    requires bits.Length == 33 && (Whole(bits[..], 32) || NoLengths(bits[..]))
    modifies bits
    ensures NoLengths(bits[..]) <==> old(NoLengths(bits[..]))
    ensures old(NoLengths(bits[..])) ==> bits[..] == old(bits[..])
    ensures old(!NoLengths(bits[..])) ==>
      Whole(bits[..], 16) && Sum(bits[..]) == Sum(old(bits[..])) && bits[..] == Limited(old(bits[..]), 32)
  {
    hide Sum, Pow2, Shares, Whole, Limited, Adjusted;
    ghost var none := NoLengths(bits[..]);
    var i := MAX_CLEN;
    while i > 16
      invariant 16 <= i <= 32
      invariant if none then bits[..] == old(bits[..])
                else Whole(bits[..], i) && Limited(bits[..], i) == Limited(old(bits[..]), 32)
    {
      while bits[i] > 0
        invariant if none then bits[..] == old(bits[..])
                  else Whole(bits[..], i) && Limited(bits[..], i) == Limited(old(bits[..]), 32)
        decreases bits[i]
      {
        LimitedStep(bits[..], i);
        AdjustOnce(bits, i);
      }
      if !none { LimitedStep(bits[..], i); }
      i := i - 1;
    }
    if !none {
      LimitedEnd(bits[..]);
      SomeCode(bits[..]);
    }
  }

  lemma AdjustedIs(bits: seq<byte>, i: nat, j: nat, r: seq<byte>)
    requires |bits| == 33 && 2 <= i <= 32 && 1 <= j <= i - 2
    requires bits[i] >= 2 && bits[j] > 0 && Sum(bits) <= 255
    requires var b1 := bits[i := bits[i] - 2];
      bits[i - 1] <= 252 && bits[j + 1] <= 252
      && var b2 := b1[i - 1 := b1[i - 1] + 1];
      var b3 := b2[j + 1 := b2[j + 1] + 2];
      r == b3[j := b3[j] - 1]
    ensures r == Adjusted(bits, i, j) && r[i] < bits[i]
  {
    hide Sum;
  }

  /** The loop at lines 814-817: one place is given up at the longest length in use. Without any code it would leave the
      array, for which the result is false. */
  method DropLongest(bits: array<byte>) returns (ok: bool, ghost top: nat)
    requires bits.Length == 33 && (Whole(bits[..], 16) || NoLengths(bits[..]))
    modifies bits
    ensures ok <==> !old(NoLengths(bits[..]))
    ensures top <= 16
    ensures ok ==> top == TopUsed(old(bits[..]), 16) && 1 <= top && old(bits[top]) > 0
    ensures ok ==> bits[..] == old(bits[..])[top := old(bits[top]) - 1]
  {
    hide Whole;
    ghost var b := bits[..];
    if !NoLengths(b) { SomeCode(b); }
    var i := 16;
    top := 0;
    while bits[i] == 0
      invariant 0 <= i <= 16 && TopUsed(b, i) == TopUsed(b, 16) && bits[..] == b
      decreases i
    {
      if i == 0 {
        return false, top;
      }
      i := i - 1;
    }
    bits[i] := bits[i] - 1;
    ok, top := true, i;
  }

  lemma SomeCode(bits: seq<byte>)
    requires Whole(bits, 16)
    ensures TopUsed(bits, 16) >= 1
  {
    hide Pow2;
    if forall k :: 1 <= k <= 16 ==> bits[k] == 0 {
      SumZero(Shares(bits));
      assert false;
    }
  }

  /** Giving up one place makes the Kraft sum smaller, that of a complete code smaller than one and any other larger. */
  lemma DroppedIsIncomplete(bits: seq<byte>, top: nat)
    requires Whole(bits, 16) && 1 <= top <= 16 && bits[top] > 0
    ensures Sum(Shares(bits[top := bits[top] - 1])) < Pow2(32) <==> Sum(Shares(bits)) == Pow2(32)
    ensures Sum(bits[top := bits[top] - 1]) == Sum(bits) - 1
  {
    hide Pow2, Sum, Shares;
    SharesUpdate(bits, top, bits[top] - 1, -1);
    var m := WholeIs(bits, 16);
    Pow2Mono(0, 32 - top);
    Pow2Mono(32 - top, 31);
    Pow2Step(31);
    Pow2Step(0);
    if m >= 2 { MulMono(2, m, Pow2(32)); }
  }
}
