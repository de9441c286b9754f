/** The C operators used on the bit accumulator, seen as operations on bit strings. */
module Shifts {
  import opened Bits

  function Zeros(n: nat): (bits: seq<bool>)
    ensures |bits| == n
    ensures forall i :: 0 <= i < n ==> !bits[i]
  {
    seq(n, i => false)
  }

  /** a | b */
  function BitOr(a: nat, b: nat): nat
    decreases a + b
  {
    if a == 0 && b == 0 then 0
    else 2 * BitOr(a / 2, b / 2) + (if a % 2 == 1 || b % 2 == 1 then 1 else 0)
  }

  /** a << k, kept to 32 bits */
  function ShiftLeft(a: nat, k: nat): (r: nat)
    ensures r < WORD
  {
    a * Pow2(k) % WORD
  }

  lemma ToBitsStep(v: int, n: nat)
    requires n > 0
    ensures ToBits(v, n) == ToBits(v / 2, n - 1) + [v % 2 == 1]
  {}

  lemma {:induction false} ToBitsOr(a: nat, b: nat, n: nat, i: nat)
    requires i < n
    ensures ToBits(BitOr(a, b), n)[i] == (ToBits(a, n)[i] || ToBits(b, n)[i])
    decreases n
  {
    var r := BitOr(a, b);
    assert r / 2 == BitOr(a / 2, b / 2) && (r % 2 == 1 <==> a % 2 == 1 || b % 2 == 1);
    ToBitsStep(a, n);
    ToBitsStep(b, n);
    ToBitsStep(r, n);
    if i < n - 1 {
      ToBitsOr(a / 2, b / 2, n - 1, i);
    }
  }

  /** Multiples of 2^n do not show in the low n bits. */
  lemma {:induction false} ToBitsMod(v: int, k: int, n: nat)
    ensures ToBits(v + k * Pow2(n), n) == ToBits(v, n)
    decreases n
  {
    if n > 0 {
      var h := k * Pow2(n - 1);
      Mul2(k, Pow2(n - 1));
      Halve(v, h);
      ToBitsStep(v, n);
      ToBitsStep(v + 2 * h, n);
      ToBitsMod(v / 2, k, n - 1);
    }
  }

  lemma Halve(v: int, h: int)
    ensures (v + 2 * h) / 2 == v / 2 + h && (v + 2 * h) % 2 == v % 2
  {}

  lemma {:induction false} ToBitsScaled(v: int, k: nat, n: nat)
    ensures ToBits(v * Pow2(k), n + k) == ToBits(v, n) + Zeros(k)
    decreases k
  {
    hide *;
    Pow2Step(0);
    if k == 0 {
      assert v * Pow2(0) == v;
      assert ToBits(v, n) + Zeros(0) == ToBits(v, n);
    } else {
      Pow2Step(k - 1);
      Mul2(v, Pow2(k - 1));
      var x := v * Pow2(k - 1);
      ToBitsStep(2 * x, n + k);
      Halve(0, x);
      ToBitsScaled(v, k - 1, n);
      assert Zeros(k - 1) + [false] == Zeros(k);
    }
  }

  lemma ToBitsShiftLeft(a: nat, k: nat, n: nat)
    requires n + k <= 32
    ensures ToBits(ShiftLeft(a, k), n + k) == ToBits(a, n) + Zeros(k)
  {
    hide *;
    var x, f := a * Pow2(k), Pow2(32 - (n + k));
    ToBitsScaled(a, k, n);
    WordSize(n + k);
    var q := x / WORD;
    assert x == x % WORD + q * (f * Pow2(n + k));
    ShiftLeftIs(a, k);
    ToBitsWide(x % WORD, q, f, n + k);
  }

  lemma ShiftLeftIs(a: nat, k: nat)
    ensures ShiftLeft(a, k) == a * Pow2(k) % WORD
  {}

  lemma Pow2Small()
    ensures Pow2(8) == 256 && Pow2(16) == 65536
  {}

  lemma WordSize(n: nat)
    requires n <= 32
    ensures Pow2(32 - n) * Pow2(n) == WORD
  {
    hide Pow2;
    Pow2Small();
    Pow2Add(16, 16);
    Pow2Add(32 - n, n);
    assert 16 + 16 == 32 - n + n == 32;
  }

  lemma ToBitsWide(r: int, q: int, f: nat, n: nat)
    ensures ToBits(r + q * (f * Pow2(n)), n) == ToBits(r, n)
  {
    hide *;
    assert q * (f * Pow2(n)) == (q * f) * Pow2(n);
    ToBitsMod(r, q * f, n);
  }

  /** Masking to size bits and viewing the result in more bits. */
  lemma ToBitsMasked(v: int, size: nat, n: nat)
    requires size <= n
    ensures ToBits(v % Pow2(size), n) == Zeros(n - size) + ToBits(v, size)
  {
    hide *;
    var p := Pow2(size);
    var m, q := v % p, v / p;
    assert v == m + q * p;
    ToBitsMod(m, q, size);
    ToBitsSplit(m, n - size, size);
    DivModUnique(m, p, 0, m);
    ToBitsZero(n - size);
    assert n - size + size == n;
  }

  lemma {:induction false} ToBitsZero(n: nat)
    ensures ToBits(0, n) == Zeros(n)
  {
    if n > 0 {
      ToBitsZero(n - 1);
    }
  }

  /** (v >> 16) & 0xFF is the first of the 24 low bits' three bytes. */
  lemma TopByte(v: nat)
    ensures v / 65536 % 256 == Value(ToBits(v, 24)[..8])
    ensures ToBits(v, 24)[8..] == ToBits(v, 16)
  {
    hide *;
    ToBitsSplit(v, 8, 16);
    Pow2Small();
    ValueToBits(v / 65536, 8);
    assert 8 + 16 == 24;
  }
}
