/** Output side of the entropy encoder: the destination manager, the working state of one MCU,
    and the bit packer with byte stuffing (jchuff.c, emit_byte to flush_bits). */
module BitPacker {
  import opened Bits
  import opened Shifts

  datatype EncodeError = MissingCode | BadDctCoef | CantSuspend
  datatype Outcome = Done | Suspended | Failed(error: EncodeError)

  /** A destination manager: it either always takes a full buffer (as jdatadst.c does) or never does,
      which is how an application asks for suspension. */
  class Destination {
    const buffer: array<byte>
    const suspending: bool
    var next: nat  // next_output_byte, as an index into buffer
    var free: nat  // free_in_buffer
    var sink: seq<byte>  // bytes that have left the buffer

    ghost predicate Valid()
      reads this
    {
      next + free == buffer.Length && free >= 1
    }

    /** Everything committed so far. */
    ghost function Committed(): (s: seq<byte>)
      requires Valid()
      reads this, buffer
    {
      sink + buffer[..next]
    }

    constructor (size: nat, mode: bool)
      requires size >= 1
      ensures Valid() && fresh(buffer) && buffer.Length == size && suspending == mode
      ensures Committed() == [] && free == size
    {
      buffer := new byte[size];
      suspending := mode;
      next, free, sink := 0, size, [];
    }

    /** empty_output_buffer: called with the whole buffer in use, whatever next and free say. */
    method EmptyOutputBuffer() returns (ok: bool)
      modifies this
      ensures ok == !suspending
      ensures suspending ==> unchanged(this)
      ensures !suspending ==> next == 0 && free == buffer.Length && sink == old(sink) + buffer[..]
    {
      if suspending {
        return false;
      }
      sink := sink + buffer[..];
      next, free := 0, buffer.Length;
      ok := true;
    }

    /** What an application does between calls to make room in a suspending destination. */
    method Drain()
      requires Valid()
      modifies this
      ensures Valid() && next == 0 && free == buffer.Length
      ensures Committed() == old(Committed())
    {
      sink := sink + buffer[..next];
      next, free := 0, buffer.Length;
    }
  }

  /** The bits held by an accumulator with n valid bits: the top n of its low 24. */
  function Held(putBuffer: nat, n: nat): (bits: seq<bool>)
    requires n <= 24
    ensures |bits| == n
  {
    ToBits(putBuffer, 24)[..n]
  }

  /** The accumulator holds exactly these bits, with zeros below them. */
  ghost predicate Holds(putBuffer: nat, bits: seq<bool>) {
    |bits| <= 24 && ToBits(putBuffer, 24) == bits + Zeros(24 - |bits|)
  }

  /** State while writing one MCU; copied from and back to permanent state by the caller. */
  class WorkingState {
    const dest: Destination
    var next: nat
    var free: nat
    var putBuffer: nat
    var putBits: nat
    var lastDcVal: seq<int>

    ghost predicate PointersValid()
      reads this, dest
    {
      next + free == dest.buffer.Length && free >= 1 && dest.next <= next
    }

    ghost predicate Valid()
      reads this, dest
    {
      PointersValid() && putBits <= 7 && Holds(putBuffer, Held(putBuffer, putBits))
    }

    ghost function Pending(): (bits: seq<bool>)
      requires putBits <= 24
      reads this
    {
      Held(putBuffer, putBits)
    }

    /** Everything written so far, committed or not. */
    ghost function Out(): (s: seq<byte>)
      requires PointersValid()
      reads this, dest, dest.buffer
    {
      dest.sink + dest.buffer[..next]
    }

    constructor (dest: Destination, putBuffer: nat, putBits: nat, lastDcVal: seq<int>)
      requires dest.Valid() && putBits <= 7 && Holds(putBuffer, Held(putBuffer, putBits))
      ensures this.dest == dest && Valid() && next == dest.next && free == dest.free
      ensures this.putBuffer == putBuffer && this.putBits == putBits && this.lastDcVal == lastDcVal
      ensures Out() == dest.Committed() && Pending() == Held(putBuffer, putBits)
    {
      this.dest := dest;
      this.next, this.free := dest.next, dest.free;
      this.putBuffer, this.putBits, this.lastDcVal := putBuffer, putBits, lastDcVal;
    }

    /** emit_byte with dump_buffer: false means the destination asked to suspend. */
    method EmitByte(val: byte) returns (ok: bool)
      requires PointersValid()
      modifies this`next, this`free, dest, dest.buffer
      ensures ok <==> !dest.suspending || old(free) > 1
      ensures ok ==> PointersValid() && Out() == old(Out()) + [val]
      ensures ok && dest.suspending ==> free == old(free) - 1
      ensures dest.suspending ==> unchanged(dest) && dest.buffer[..dest.next] == old(dest.buffer[..dest.next])
    {
      dest.buffer[next] := val;
      assert dest.sink + dest.buffer[..next + 1] == old(Out()) + [val];
      next, free := next + 1, free - 1;
      ok := true;
      if free == 0 {
        ok := dest.EmptyOutputBuffer();
        if ok {
          next, free := dest.next, dest.free;
          assert Out() == old(Out()) + [val];
        }
      }
    }

    /** A data byte, with a zero byte stuffed after 0xFF. */
    method EmitDataByte(c: byte) returns (ok: bool)
      requires PointersValid()
      modifies this`next, this`free, dest, dest.buffer
      ensures ok <==> !dest.suspending || old(free) > |StuffByte(c)|
      ensures ok ==> PointersValid() && Out() == old(Out()) + StuffByte(c)
      ensures ok && dest.suspending ==> free == old(free) - |StuffByte(c)|
      ensures dest.suspending ==> unchanged(dest) && dest.buffer[..dest.next] == old(dest.buffer[..dest.next])
    {
      ok := EmitByte(c);
      if ok && c == 0xFF {
        ok := EmitByte(0);
      }
    }

    /** emit_bits: the low size bits of code join the bit stream; complete bytes go out, stuffed. */
    method EmitBits(code: int, size: nat) returns (r: Outcome)
      requires Valid() && size <= 16
      modifies this`next, this`free, this`putBuffer, this`putBits, dest, dest.buffer
      ensures var out := Stuff(FullBytes(old(Pending()) + ToBits(code, size)));
        && (r == Failed(MissingCode) <==> size == 0)
        && (r.Failed? ==> size == 0)
        && (r == Suspended <==> size > 0 && dest.suspending && |out| >= old(free))
        && (r == Done ==> Valid() && Out() == old(Out()) + out)
        && (r == Done && dest.suspending ==> free == old(free) - |out|)
      ensures r == Done ==> Pending() == Leftover(old(Pending()) + ToBits(code, size))
      ensures dest.suspending ==> unchanged(dest) && dest.buffer[..dest.next] == old(dest.buffer[..dest.next])
    {
      hide ToBits, FullBytes, Leftover, Stuff, StuffByte, BitOr, ShiftLeft, Pow2, Held, Holds;
      if size == 0 {
        return Failed(MissingCode);
      }
      ghost var all := Pending() + ToBits(code, size);
      ghost var total := Stuff(FullBytes(all));
      var buf: nat := code % Pow2(size);
      var bits := putBits + size;
      buf := ShiftLeft(buf, 24 - bits);
      buf := BitOr(buf, putBuffer);
      Merged(code, size, putBuffer, putBits);
      ghost var rem, done := all, [];
      while bits >= 8
        invariant |rem| == bits <= 23 && Holds(buf, rem)
        invariant PointersValid()
        invariant total == done + Stuff(FullBytes(rem)) && Leftover(all) == Leftover(rem)
        invariant Out() == old(Out()) + done
        invariant dest.suspending ==> free == old(free) - |done|
        invariant dest.suspending ==> unchanged(dest) && dest.buffer[..dest.next] == old(dest.buffer[..dest.next])
        decreases bits
      {
        var c: byte := buf / 65536 % 256;
        NextByte(buf, rem);
        var ok := EmitDataByte(c);
        if !ok {
          return Suspended;
        }
        assert total == (done + StuffByte(c)) + Stuff(FullBytes(rem[8..]));
        done := done + StuffByte(c);
        buf := ShiftLeft(buf, 8);
        bits := bits - 8;
        rem := rem[8..];
      }
      BytesStep(rem);
      StuffStep([]);
      assert total == done;
      putBuffer := buf;
      putBits := bits;
      HoldsHeld(buf, rem);
      r := Done;
    }

    /** flush_bits: ones fill the last partial byte. */
    method FlushBits() returns (r: Outcome)
      requires Valid()
      modifies this`next, this`free, this`putBuffer, this`putBits, dest, dest.buffer
      ensures var out := Stuff(FullBytes(old(Pending()) + Ones(7)));
        && (r == Suspended <==> dest.suspending && |out| >= old(free))
        && (r == Suspended || r == Done)
        && (r == Done ==> Valid() && Out() == old(Out()) + out && Pending() == [])
        && (r == Done && dest.suspending ==> free == old(free) - |out|)
      ensures dest.suspending ==> unchanged(dest) && dest.buffer[..dest.next] == old(dest.buffer[..dest.next])
    {
      hide ToBits, FullBytes, Leftover, Stuff, Held, Holds, Ones;
      SevenOnes();
      r := EmitBits(0x7F, 7);
      if r == Done {
        putBuffer := 0;
        putBits := 0;
        ZeroHeld();
      }
    }
  }

  lemma HoldsHeld(buf: nat, bits: seq<bool>)
    requires Holds(buf, bits)
    ensures Held(buf, |bits|) == bits
  {}

  lemma ZeroHeld()
    ensures Held(0, 0) == [] && Holds(0, [])
  {
    ToBitsZero(24);
  }

  lemma SevenOnes()
    ensures ToBits(0x7F, 7) == Ones(7)
  {
    var b := ToBits(0x7F, 7);
    assert b == ToBits(31, 5) + [true] + [true];
    assert ToBits(31, 5) == ToBits(7, 3) + [true] + [true];
    assert ToBits(7, 3) == ToBits(1, 1) + [true] + [true];
    assert ToBits(1, 1) == ToBits(0, 0) + [true];
  }

  /** Aligning the new bits and merging them with the old buffer appends them. */
  lemma Merged(code: int, size: nat, putBuffer: nat, putBits: nat)
    requires 1 <= size <= 16 && putBits <= 7 && Holds(putBuffer, Held(putBuffer, putBits))
    ensures code % Pow2(size) >= 0
    ensures Holds(BitOr(ShiftLeft(code % Pow2(size), 24 - (putBits + size)), putBuffer),
      Held(putBuffer, putBits) + ToBits(code, size))
  {
    hide BitOr, ShiftLeft, ToBits, Pow2;
    var n := putBits + size;
    var m := code % Pow2(size);
    var a := ShiftLeft(m, 24 - n);
    ToBitsShiftLeft(m, 24 - n, n);
    ToBitsMasked(code, size, n);
    assert n + (24 - n) == 24 && n - size == putBits;
    var r := ToBits(BitOr(a, putBuffer), 24);
    var want := Held(putBuffer, putBits) + ToBits(code, size) + Zeros(24 - n);
    forall i | 0 <= i < 24 ensures r[i] == want[i] {
      ToBitsOr(a, putBuffer, 24, i);
    }
    assert r == want;
  }

  lemma ShiftOut(buf: nat, rem: seq<bool>)
    requires 8 <= |rem| <= 23 && Holds(buf, rem)
    ensures Holds(ShiftLeft(buf, 8), rem[8..]) && buf / 65536 % 256 == Value(rem[..8])
  {
    hide ToBits, ShiftLeft, Value;
    TopByte(buf);
    ToBitsShiftLeft(buf, 8, 16);
    assert 16 + 8 == 24;
    var z := Zeros(24 - |rem|);
    assert ToBits(buf, 24)[..8] == rem[..8];
    assert ToBits(buf, 24)[8..] == rem[8..] + z;
    assert z + Zeros(8) == Zeros(24 - |rem[8..]|);
    assert ToBits(ShiftLeft(buf, 8), 24) == rem[8..] + (z + Zeros(8));
  }

  /** The next byte to go out, and what is left after it. */
  lemma NextByte(buf: nat, rem: seq<bool>)
    requires 8 <= |rem| <= 23 && Holds(buf, rem)
    ensures Holds(ShiftLeft(buf, 8), rem[8..])
    ensures var c := buf / 65536 % 256;
      && Stuff(FullBytes(rem)) == StuffByte(c) + Stuff(FullBytes(rem[8..]))
      && Leftover(rem) == Leftover(rem[8..])
  {
    hide ToBits, ShiftLeft, FullBytes, Leftover, Stuff, Value, Holds;
    ShiftOut(buf, rem);
    BytesStep(rem);
    var c := Value(rem[..8]);
    assert ([c] + FullBytes(rem[8..]))[1..] == FullBytes(rem[8..]);
    StuffStep(FullBytes(rem));
  }
}
