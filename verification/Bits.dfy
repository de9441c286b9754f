/** Bits, bytes and powers of two: the vocabulary in which the entropy coder is specified. */
module Bits {

  type byte = b: int | 0 <= b < 256

  const WORD: nat := 0x1_0000_0000  // one more than the largest 32-bit number

  datatype Option<+T> = None | Some(value: T)

  function Pow2(n: nat): (p: nat)
    ensures p >= 1
  {
    if n == 0 then 1 else 2 * Pow2(n - 1)
  }

  lemma {:induction false} Pow2Add(a: nat, b: nat)
    ensures Pow2(a + b) == Pow2(a) * Pow2(b)
  {
    if a > 0 {
      Pow2Add(a - 1, b);
      assert Pow2(a + b) == 2 * (Pow2(a - 1) * Pow2(b));
    }
  }

  lemma {:induction false} Pow2Mono(a: nat, b: nat)
    requires a <= b
    ensures Pow2(a) <= Pow2(b)
  {
    if a < b {
      Pow2Mono(a, b - 1);
    }
  }

  /** Number of bits of a magnitude, as the shift-right loops compute it. */
  function BitLen(v: nat): (n: nat)
    ensures v < Pow2(n)
    ensures n > 0 ==> Pow2(n - 1) <= v
  {
    if v == 0 then 0 else 1 + BitLen(v / 2)
  }

  /** Value of a bit string, most significant bit first. */
  function Value(bits: seq<bool>): (v: nat)
    ensures v < Pow2(|bits|)
  {
    if bits == [] then 0
    else 2 * Value(bits[..|bits| - 1]) + (if bits[|bits| - 1] then 1 else 0)
  }

  /** The low n bits of v (two's complement when v is negative), most significant bit first. */
  function ToBits(v: int, n: nat): (bits: seq<bool>)
    ensures |bits| == n
    decreases n
  {
    if n == 0 then [] else ToBits(v / 2, n - 1) + [v % 2 == 1]
  }

  lemma {:induction false} ModHalf(v: int, p: nat)
    requires p > 0
    ensures v % (2 * p) == 2 * ((v / 2) % p) + v % 2
  {
    var h := v / 2;
    var q := h / p;
    var r := 2 * (h % p) + v % 2;
    assert h == q * p + h % p;
    assert v == q * (2 * p) + r;
    DivModUnique(v, 2 * p, q, r);
  }

  lemma MulAtLeast(k: int, d: int)
    requires k >= 1 && d >= 0
    ensures k * d >= d
  {
    assert k * d == (k - 1) * d + d;
  }

  lemma DivModUnique(v: int, d: nat, q: int, r: int)
    requires d > 0 && 0 <= r < d && v == q * d + r
    ensures v / d == q && v % d == r
  {
    var q', r' := v / d, v % d;
    assert v == q' * d + r';
    assert (q - q') * d == q * d - q' * d;
    assert (q' - q) * d == q' * d - q * d;
    if q > q' {
      MulAtLeast(q - q', d);
      assert false;
    }
    if q < q' {
      MulAtLeast(q' - q, d);
      assert false;
    }
  }

  lemma ValueSnoc(prefix: seq<bool>, b: bool)
    ensures Value(prefix + [b]) == 2 * Value(prefix) + (if b then 1 else 0)
  {
    assert (prefix + [b])[..|prefix|] == prefix;
  }

  lemma {:induction false} ValueToBits(v: int, n: nat)
    ensures Value(ToBits(v, n)) == v % Pow2(n)
    decreases n
  {
    if n > 0 {
      ValueToBits(v / 2, n - 1);
      ValueSnoc(ToBits(v / 2, n - 1), v % 2 == 1);
      ModHalf(v, Pow2(n - 1));
    }
  }

  lemma {:induction false} ToBitsValue(bits: seq<bool>)
    ensures ToBits(Value(bits), |bits|) == bits
  {
    if bits != [] {
      var n := |bits|;
      ToBitsValue(bits[..n - 1]);
      assert Value(bits) / 2 == Value(bits[..n - 1]);
    }
  }

  lemma {:induction false} ValueConcat(a: seq<bool>, b: seq<bool>)
    ensures Value(a + b) == Value(a) * Pow2(|b|) + Value(b)
  {
    hide *;
    if b == [] {
      assert a + b == a;
      Pow2Step(0);
    } else {
      var n := |b| - 1;
      var b' := b[..n];
      assert b == b' + [b[n]];
      assert a + b == (a + b') + [b[n]];
      ValueSnoc(a + b', b[n]);
      ValueSnoc(b', b[n]);
      ValueConcat(a, b');
      Pow2Step(n);
      Mul2(Value(a), Pow2(n));
    }
  }

  lemma Pow2Step(n: nat)
    ensures Pow2(0) == 1 && Value([]) == 0
    ensures Pow2(n + 1) == 2 * Pow2(n)
  {}

  lemma Mul2(x: int, y: int)
    ensures 2 * (x * y) == x * (2 * y) == (2 * x) * y
  {}

  lemma Distribute(x: int, y: int, z: int)
    ensures (x + y) * z == x * z + y * z
  {}

  lemma {:induction false} ToBitsSplit(v: int, a: nat, b: nat)
    ensures ToBits(v, a + b) == ToBits(v / Pow2(b), a) + ToBits(v, b)
    decreases b
  {
    if b > 0 {
      ToBitsSplit(v / 2, a, b - 1);
      assert v / 2 / Pow2(b - 1) == v / Pow2(b) by { HalfThenDiv(v, Pow2(b - 1)); }
      assert ToBits(v, a + b) == ToBits(v / 2, a + b - 1) + [v % 2 == 1];
    } else {
      assert v / Pow2(0) == v;
    }
  }

  lemma MulMono(x: int, y: int, z: int)
    requires x <= y && z >= 0
    ensures x * z <= y * z
  {
    assert (y - x) * z == y * z - x * z;
  }

  lemma HalfThenDiv(v: int, b: nat)
    requires b > 0
    ensures v / 2 / b == v / (2 * b)
  {
    var q := v / 2;
    var q2, r2 := q / b, q % b;
    assert q == q2 * b + r2;
    assert v == q2 * (2 * b) + (2 * r2 + v % 2) by {
      assert 2 * (q2 * b) == q2 * (2 * b);
    }
    DivModUnique(v, 2 * b, q2, 2 * r2 + v % 2);
  }

  lemma ValueOfSmall(v: nat, n: nat)
    requires v < Pow2(n)
    ensures Value(ToBits(v, n)) == v
  {
    ValueToBits(v, n);
    DivModUnique(v, Pow2(n), 0, v);
  }

  // ---- bit strings as byte strings ----

  /** The complete bytes at the front of a bit string. */
  function FullBytes(bits: seq<bool>): (bytes: seq<byte>)
    ensures |bytes| == |bits| / 8
  {
    if |bits| < 8 then [] else
      assert Value(bits[..8]) < 256 by { assert Pow2(8) == 256; }
      [Value(bits[..8])] + FullBytes(bits[8..])
  }

  /** What is left after the complete bytes. */
  function Leftover(bits: seq<bool>): (rest: seq<bool>)
    ensures |rest| < 8 && |rest| == |bits| % 8
  {
    bits[|bits| / 8 * 8..]
  }

  function BytesToBits(bytes: seq<byte>): (bits: seq<bool>)
    ensures |bits| == 8 * |bytes|
  {
    if bytes == [] then [] else ToBits(bytes[0], 8) + BytesToBits(bytes[1..])
  }

  lemma {:induction false} FullBytesConcat(a: seq<bool>, b: seq<bool>)
    ensures FullBytes(a + b) == FullBytes(a) + FullBytes(Leftover(a) + b)
    ensures Leftover(a + b) == Leftover(Leftover(a) + b)
  {
    hide *;
    if |a| < 8 {
      BytesStep(a);
      assert FullBytes(a) + FullBytes(a + b) == FullBytes(a + b);
    } else {
      BytesStep(a);
      BytesStep(a + b);
      assert (a + b)[8..] == a[8..] + b && (a + b)[..8] == a[..8];
      FullBytesConcat(a[8..], b);
    }
  }

  lemma BytesStep(a: seq<bool>)
    ensures |a| < 8 ==> FullBytes(a) == [] && Leftover(a) == a
    ensures |a| >= 8 ==> Value(a[..8]) < 256 && FullBytes(a) == [Value(a[..8])] + FullBytes(a[8..])
    ensures |a| >= 8 ==> Leftover(a) == Leftover(a[8..])
  {}

  lemma {:induction false} BytesRoundTrip(bits: seq<bool>)
    ensures BytesToBits(FullBytes(bits)) + Leftover(bits) == bits
  {
    hide *;
    BytesStep(bits);
    BytesToBitsStep(FullBytes(bits));
    if |bits| >= 8 {
      var v, rest := Value(bits[..8]), FullBytes(bits[8..]);
      BytesRoundTrip(bits[8..]);
      assert ([v] + rest)[1..] == rest;
      ToBitsValue(bits[..8]);
      assert bits == bits[..8] + bits[8..];
    }
  }

  lemma BytesToBitsStep(a: seq<byte>)
    ensures a == [] ==> BytesToBits(a) == []
    ensures a != [] ==> BytesToBits(a) == ToBits(a[0], 8) + BytesToBits(a[1..])
  {}

  lemma {:induction false} BytesToBitsConcat(a: seq<byte>, b: seq<byte>)
    ensures BytesToBits(a + b) == BytesToBits(a) + BytesToBits(b)
  {
    hide *;
    BytesToBitsStep(a);
    if a == [] {
      assert a + b == b;
    } else {
      BytesToBitsStep(a + b);
      assert (a + b)[1..] == a[1..] + b;
      BytesToBitsConcat(a[1..], b);
    }
  }

  // ---- byte stuffing (T.81 section F.1.2.3) ----

  function StuffByte(b: byte): (out: seq<byte>) {
    if b == 0xFF then [0xFF, 0] else [b]
  }

  /** Every 0xFF data byte is followed by a zero byte. */
  function Stuff(bytes: seq<byte>): (out: seq<byte>) {
    if bytes == [] then [] else StuffByte(bytes[0]) + Stuff(bytes[1..])
  }

  /** Reads stuffed data up to a marker or the end of the input; the second part starts at the marker. */
  function Unstuff(bytes: seq<byte>): (r: (seq<byte>, seq<byte>))
    ensures |r.0| + |r.1| <= |bytes|
  {
    if bytes == [] then ([], [])
    else if bytes[0] != 0xFF then
      var r := Unstuff(bytes[1..]); ([bytes[0]] + r.0, r.1)
    else if |bytes| >= 2 && bytes[1] == 0 then
      var r := Unstuff(bytes[2..]); ([0xFF] + r.0, r.1)
    else ([], bytes)
  }

  lemma StuffStep(a: seq<byte>)
    ensures a == [] ==> Stuff(a) == []
    ensures a != [] ==> Stuff(a) == StuffByte(a[0]) + Stuff(a[1..])
  {}

  lemma {:induction false} StuffConcat(a: seq<byte>, b: seq<byte>)
    ensures Stuff(a + b) == Stuff(a) + Stuff(b)
  {
    hide *;
    StuffStep(a);
    if a == [] {
      assert a + b == b;
    } else {
      StuffStep(a + b);
      assert (a + b)[1..] == a[1..] + b;
      StuffConcat(a[1..], b);
    }
  }

  lemma UnstuffByte(b: byte, t: seq<byte>)
    ensures Unstuff(StuffByte(b) + t) == ([b] + Unstuff(t).0, Unstuff(t).1)
  {
    var s := StuffByte(b) + t;
    if b == 0xFF {
      assert s[2..] == t;
    } else {
      assert s[1..] == t;
    }
  }

  /** Stuffing is undone by Unstuff, whatever follows. */
  lemma {:induction false} UnstuffStuff(a: seq<byte>, rest: seq<byte>)
    ensures Unstuff(Stuff(a) + rest) == (a + Unstuff(rest).0, Unstuff(rest).1)
  {
    hide *;
    StuffStep(a);
    if a == [] {
      assert Stuff(a) + rest == rest;
      assert a + Unstuff(rest).0 == Unstuff(rest).0;
    } else {
      var t := Stuff(a[1..]) + rest;
      assert Stuff(a) + rest == StuffByte(a[0]) + t;
      UnstuffStuff(a[1..], rest);
      UnstuffByte(a[0], t);
      assert [a[0]] + (a[1..] + Unstuff(rest).0) == a + Unstuff(rest).0;
    }
  }

  /** Padding: n one-bits. */
  function Ones(n: nat): (bits: seq<bool>)
    ensures |bits| == n
    ensures forall i :: 0 <= i < n ==> bits[i]
  {
    seq(n, i => true)
  }
}
