/** Sector-aligned access to a raw device (alignio.h): reads through a bounce buffer, writes by read-modify-write. */
module AlignedIO {
  import opened Bits

  /** unsigned int */
  function U32(x: nat): (r: nat)
    ensures r < 0x1_0000_0000 && (x < 0x1_0000_0000 ==> r == x)
  {
    x % WORD
  }

  /** (signed) of an unsigned int. */
  function Signed(x: nat): (r: int)
    requires x < WORD
    ensures -0x8000_0000 <= r < 0x8000_0000 && (r == x || r == x - 0x1_0000_0000)
  {
    if x < 0x8000_0000 then x else x - WORD
  }

  function Min(a: int, b: int): (m: int)
    ensures m <= a && m <= b && (m == a || m == b)
  {
    if a < b then a else b
  }

  /** Content of a device after data has been written at offset. */
  function Overwrite(bytes: seq<byte>, offset: nat, data: seq<byte>): (r: seq<byte>)
    requires data == [] || offset + |data| <= |bytes|
    ensures |r| == |bytes|
  {
    if data == [] then bytes else bytes[..offset] + data + bytes[offset + |data|..]
  }

  /** One call of fnct_pread or fnct_pwrite and what it returned. */
  datatype RawCall = RawRead(offset: nat, count: nat, res: int) | RawWrite(offset: nat, count: nat, res: int)

  /** A raw device, which takes only whole sectors. */
  class Device {
    var bytes: seq<byte>
    ghost var calls: seq<RawCall>
    const sectorSize: nat

    constructor (bytes: seq<byte>, sectorSize: nat)
      ensures this.bytes == bytes && this.sectorSize == sectorSize && calls == []
    {
      this.bytes := bytes;
      calls := [];
      this.sectorSize := sectorSize;
    }

    /** fnct_pread: an error, or as many bytes as the device gave; nothing is promised about the rest of the count. */
    method Pread(buf: array<byte>, count: nat, offset: nat) returns (res: int)
      requires count <= buf.Length && sectorSize > 0 && count % sectorSize == 0 && offset % sectorSize == 0
      modifies buf, this`calls
      ensures RawOutcome(bytes, offset, count, res) && res < 0x8000_0000
      ensures calls == old(calls) + [RawRead(offset, count, res)]
      ensures res > 0 ==> buf[..res] == bytes[offset..offset + res]
      ensures forall k :: count <= k < buf.Length ==> buf[k] == old(buf[k])
    {
      if * {
        calls := calls + [RawRead(offset, count, -1)];
        return -1;
      }
      var n := 0;
      while n < count && offset + n < |bytes| && n < 0x7FFF_FFFF
        invariant calls == old(calls)
        invariant n <= count && n < 0x8000_0000 && (n > 0 ==> offset + n <= |bytes|)
        invariant forall k :: 0 <= k < n ==> buf[k] == bytes[offset + k]
        invariant forall k :: count <= k < buf.Length ==> buf[k] == old(buf[k])
      {
        if * {
          break;
        }
        buf[n] := bytes[offset + n];
        n := n + 1;
      }
      calls := calls + [RawRead(offset, count, n)];
      return n;
    }

    /** fnct_pwrite: an error, or as many bytes as the device took. The first wrote bytes have reached the device. */
    method Pwrite(buf: array<byte>, count: nat, offset: nat) returns (res: int, ghost wrote: nat)
      requires count <= buf.Length && sectorSize > 0 && count % sectorSize == 0 && offset % sectorSize == 0
      modifies this`bytes, this`calls
      ensures calls == old(calls) + [RawWrite(offset, count, res)]
      ensures -1 <= res <= count && wrote <= count && (res >= 0 ==> wrote == res)
      ensures wrote > 0 ==> offset + wrote <= |old(bytes)|
      ensures bytes == Overwrite(old(bytes), offset, buf[..wrote])
    {
      var n := 0;
      while n < count && offset + n < |bytes|
        invariant calls == old(calls)
        invariant n <= count && (n > 0 ==> offset + n <= |old(bytes)|)
        invariant bytes == Overwrite(old(bytes), offset, buf[..n])
      {
        if * {
          break;
        }
        bytes := bytes[offset + n := buf[n]];
        n := n + 1;
      }
      wrote := n;
      res := n;
      if * {
        res := -1;
      }
      calls := calls + [RawWrite(offset, count, res)];
    }
  }

  // ---- sizes ----

  /** The number of bytes in the sectors that a request touches, before it is cut to an unsigned int. */
  function Span(sectorSize: nat, at: nat, count: nat): nat
    requires sectorSize > 0
  {
    (at % sectorSize + count + sectorSize - 1) / sectorSize * sectorSize
  }

  function AlignDown(sectorSize: nat, at: nat): nat
    requires sectorSize > 0
  {
    at / sectorSize * sectorSize
  }

  lemma SpanBounds(sectorSize: nat, at: nat, count: nat)
    requires sectorSize > 0 && count > 0
    ensures at % sectorSize + count <= Span(sectorSize, at, count) < at % sectorSize + count + sectorSize
    ensures Span(sectorSize, at, count) % sectorSize == 0 && AlignDown(sectorSize, at) % sectorSize == 0
    ensures at == AlignDown(sectorSize, at) + at % sectorSize
  {
    var x := at % sectorSize + count + sectorSize - 1;
    assert x == x / sectorSize * sectorSize + x % sectorSize;
    DivModUnique(Span(sectorSize, at, count), sectorSize, x / sectorSize, 0);
    DivModUnique(AlignDown(sectorSize, at), sectorSize, at / sectorSize, 0);
  }

  /** A request that needs no rounding consists of whole sectors. */
  lemma DirectAligned(sectorSize: nat, at: nat, count: nat)
    requires sectorSize > 0 && count > 0 && Span(sectorSize, at, count) == count
    ensures at % sectorSize == 0 && count % sectorSize == 0
  {
    SpanBounds(sectorSize, at, count);
  }

  /** count_new reaches count exactly when the rounded size fits an unsigned int. */
  lemma CountNewEnough(sectorSize: nat, at: nat, count: nat)
    requires 0 < sectorSize <= 0x8000_0000 && 0 < count < 0x1_0000_0000
    ensures U32(Span(sectorSize, at, count)) >= count <==> Span(sectorSize, at, count) < 0x1_0000_0000
  {
    SpanBounds(sectorSize, at, count);
    hide Span;
    var s := Span(sectorSize, at, count);
    if s >= WORD { DivModUnique(s, WORD, 1, s - WORD); }
  }

  /** The buffer size after n doublings. */
  function Doubled(n: nat): nat {
    if n == 0 then 128 * 512 else U32(Doubled(n - 1) * 2)
  }

  lemma PowersOfTwo()
    ensures Pow2(16) == 0x1_0000 && Pow2(31) == 0x8000_0000 && Pow2(32) == WORD
  {
    assert Pow2(8) == 256;
    hide Pow2;
    Pow2Add(8, 8);
    Pow2Add(16, 16);
    Pow2Step(31);
  }

  lemma DoubledStep(n: nat)
    ensures Doubled(0) == 0x1_0000 && Doubled(n + 1) == U32(Doubled(n) * 2)
  {}

  lemma Cut(x: nat)
    ensures x < WORD ==> U32(x) == x
    ensures x == WORD ==> U32(x) == 0
  {}

  lemma {:induction false} DoubledIs(n: nat)
    ensures Doubled(n) == if n <= 15 then Pow2(16 + n) else 0
    ensures Doubled(n) <= 0x8000_0000
  {
    hide Pow2, Doubled, U32;
    PowersOfTwo();
    if n <= 15 { Pow2Mono(16 + n, 31); }
    if n == 0 {
      DoubledStep(0);
    } else {
      DoubledIs(n - 1);
      DoubledStep(n - 1);
      Pow2Step(15 + n);
      Cut(Doubled(n - 1) * 2);
    }
  }

  /** A buffer that is still too small can be doubled. */
  lemma CanDouble(n: nat, size: nat)
    requires Doubled(n) < size <= 0x8000_0000 && n <= 15
    ensures n < 15
  {
    hide Pow2, Doubled;
    DoubledIs(n);
    PowersOfTwo();
  }

  /** Doubling reaches a size exactly when that size is at most 2^31; for a larger one the loop never ends. */
  lemma GrowthStops(size: nat)
    ensures (exists n: nat :: Doubled(n) >= size) <==> size <= 0x8000_0000
  {
    hide Doubled, Pow2;
    PowersOfTwo();
    DoubledIs(15);
    forall n: nat ensures Doubled(n) <= 0x8000_0000 { DoubledIs(n); }
  }

  lemma OverwriteNone(bytes: seq<byte>, offset: nat)
    ensures Overwrite(bytes, offset, []) == bytes
  {}

  lemma OverwriteNext(bytes: seq<byte>, offset: nat, data: seq<byte>, b: byte)
    requires offset + |data| < |bytes|
    ensures Overwrite(bytes, offset, data + [b]) == Overwrite(bytes, offset, data)[offset + |data| := b]
  {}

  /** memcpy(dst + to, src + from, n) between different buffers. */
  method CopyBytes(src: array<byte>, from: nat, dst: array<byte>, to: nat, n: nat)
    requires src != dst && from + n <= src.Length && to + n <= dst.Length
    modifies dst
    ensures dst[..] == Overwrite(old(dst[..]), to, src[from..from + n])
  {
    hide Overwrite;
    var i := 0;
    OverwriteNone(dst[..], to);
    assert src[from..from + 0] == [];
    while i < n
      invariant i <= n && dst[..] == Overwrite(old(dst[..]), to, src[from..from + i])
    {
      OverwriteNext(old(dst[..]), to, src[from..from + i], src[from + i]);
      assert src[from..from + i] + [src[from + i]] == src[from..from + i + 1];
      dst[to + i] := src[from + i];
      i := i + 1;
    }
  }

  /** How many of the count bytes asked for a raw read of raw bytes delivers, when it starts skip bytes earlier. */
  function Delivered(raw: int, skip: nat, count: nat): (n: nat)
    ensures n <= count
  {
    if raw <= skip then 0 else if raw - skip < count then raw - skip else count
  }

  /** After a raw read of raw bytes that starts skip bytes before position at, the data it covers are the bytes there.
      */
  ghost predicate ReadFrom(bytes: seq<byte>, at: nat, skip: nat, raw: int, data: seq<byte>) {
    forall k: nat :: k < |data| && skip + k < raw ==> at + k < |bytes| && data[k] == bytes[at + k]
  }

  lemma DeliveredAre(data: seq<byte>, bytes: seq<byte>, at: nat, skip: nat, raw: int, count: nat)
    requires |data| == count
    requires var n := Delivered(raw, skip, count);
      n > 0 ==> at + n <= |bytes| && data[..n] == bytes[at..at + n]
    ensures ReadFrom(bytes, at, skip, raw, data)
  {
    var n := Delivered(raw, skip, count);
    forall k: nat | k < n ensures at + k < |bytes| && data[k] == bytes[at + k] {
      assert data[..n][k] == bytes[at..at + n][k];
    }
  }

  /** The first wrote bytes from the sector boundary skip bytes before position at on have been replaced: by the data
      from at on, else by the block. */
  ghost predicate WroteAt(bytes: seq<byte>, now: seq<byte>, at: nat, skip: nat, block: seq<byte>, data: seq<byte>,
                          wrote: nat)
  {
    |now| == |bytes| && forall k: nat :: k < |bytes| ==>
      if k < at - skip || k >= at - skip + wrote then now[k] == bytes[k]
      else if at <= k < at + |data| then now[k] == data[k - at]
      else k - (at - skip) < |block| && now[k] == block[k - (at - skip)]
  }

  lemma WrittenAre(bytes: seq<byte>, at: nat, skip: nat, block: seq<byte>, data: seq<byte>, wrote: nat)
    requires skip <= at && skip + |data| <= |block| && wrote <= |block|
    requires wrote > 0 ==> at - skip + wrote <= |bytes|
    ensures
      WroteAt(bytes, Overwrite(bytes, at - skip, Overwrite(block, skip, data)[..wrote]), at, skip, block, data, wrote)
  {
    hide Overwrite;
    var merged := Overwrite(block, skip, data);
    var now := Overwrite(bytes, at - skip, merged[..wrote]);
    forall k: nat | k < |bytes|
      ensures now[k] == if k < at - skip || k >= at - skip + wrote then bytes[k]
                        else if at <= k < at + |data| then data[k - at] else block[k - (at - skip)]
    {
      if wrote == 0 {
        OverwriteNone(bytes, at - skip);
      } else {
        OverwriteAt(bytes, at - skip, merged[..wrote], k);
        if at - skip <= k < at - skip + wrote { OverwriteAt(block, skip, data, k - (at - skip)); }
      }
    }
  }

  lemma CopiedOut(before: seq<byte>, buffer: seq<byte>, bytes: seq<byte>, start: nat, skip: nat, raw: int, count: nat)
    requires count <= |before| && skip + count <= |buffer| && raw <= |buffer| && count > 0
    requires raw > 0 ==> start + raw <= |bytes| && buffer[..raw] == bytes[start..start + raw]
    ensures var after, n := Overwrite(before, 0, buffer[skip..skip + count]), Delivered(raw, skip, count);
      && after[count..] == before[count..]
      && (n > 0 ==> start + skip + n <= |bytes| && after[..n] == bytes[start + skip..start + skip + n])
  {
    var after, n := Overwrite(before, 0, buffer[skip..skip + count]), Delivered(raw, skip, count);
    forall k: nat | k < n ensures after[k] == bytes[start + skip + k] {
      assert buffer[..raw][skip + k] == bytes[start..start + raw][skip + k];
    }
  }

  function Buffer(a: array?<byte>): set<object> {
    if a == null then {} else {a}
  }

  /** The part of disk_t that alignio.h works on. */
  class Disk {
    const device: Device
    const offset: nat  // of the first sector
    var rbuffer: array?<byte>
    var rbufferSize: nat
    var wbuffer: array?<byte>
    var wbufferSize: nat

    ghost predicate Valid()
      reads this
    {
      && device.sectorSize > 0
      && (rbuffer != null ==> rbuffer.Length == rbufferSize)
      && (wbuffer != null ==> wbuffer.Length == wbufferSize)
      && (rbuffer != null ==> rbuffer != wbuffer)
    }

    constructor (device: Device, offset: nat)
      requires device.sectorSize > 0
      ensures Valid() && this.device == device && this.offset == offset && rbuffer == null && wbuffer == null
    {
      this.device := device;
      this.offset := offset;
      rbuffer, rbufferSize, wbuffer, wbufferSize := null, 0, null, 0;
    }

    /** Position on the device of a byte of the disk. */
    function At(offset: nat): nat {
      offset + this.offset
    }

    /** count_new */
    function CountNew(count: nat, offset: nat): nat
      requires device.sectorSize > 0
    {
      U32(Span(device.sectorSize, At(offset), count))
    }

    /** The requests that come out right: nothing is cut to 32 or 64 bits, and a buffer, where one is needed, can grow
        to the size. */
    ghost predicate Fits(count: nat, offset: nat, misaligned: bool)
      requires device.sectorSize > 0
    {
      var span := Span(device.sectorSize, At(offset), count);
      && 0 < count && At(offset) < WORD * WORD && device.sectorSize < WORD
      && span < WORD && (count != span || misaligned ==> span <= 0x8000_0000)
    }

    /** A read buffer of at least countNew bytes. */
    method NeedRbuffer(countNew: nat)
      requires Valid() && countNew <= 0x8000_0000
      modifies `rbuffer, `rbufferSize
      ensures Valid() && rbuffer != null && countNew <= rbufferSize
      ensures if old(rbuffer) != null && old(rbufferSize) >= countNew then rbuffer == old(rbuffer) else fresh(rbuffer)
    {
      hide Doubled, U32;
      if rbufferSize < countNew {
        rbuffer := null;
      }
      if rbuffer == null {
        rbufferSize := 128 * 512;
        DoubledStep(0);
        ghost var n := 0;
        while rbufferSize < countNew
          invariant rbufferSize == Doubled(n) && n <= 15 && rbuffer == null
          decreases 15 - n
        {
          DoubledStep(n);
          CanDouble(n, countNew);
          rbufferSize := U32(rbufferSize * 2);
          n := n + 1;
        }
        rbuffer := new byte[rbufferSize];
      }
    }

    /** A write buffer of at least countNew bytes. */
    method NeedWbuffer(countNew: nat)
      requires Valid() && countNew <= 0x8000_0000
      modifies `wbuffer, `wbufferSize
      ensures Valid() && wbuffer != null && countNew <= wbufferSize
      ensures if old(wbuffer) != null && old(wbufferSize) >= countNew then wbuffer == old(wbuffer) else fresh(wbuffer)
    {
      hide Doubled, U32;
      if wbufferSize < countNew {
        wbuffer := null;
      }
      if wbuffer == null {
        wbufferSize := 128 * 512;
        DoubledStep(0);
        ghost var n := 0;
        while wbufferSize < countNew
          invariant wbufferSize == Doubled(n) && n <= 15 && wbuffer == null
          decreases 15 - n
        {
          DoubledStep(n);
          CanDouble(n, countNew);
          wbufferSize := U32(wbufferSize * 2);
          n := n + 1;
        }
        wbuffer := new byte[wbufferSize];
      }
    }

    /** align_pread. misaligned stands for a buffer address that direct access does not take; raw is what the raw read
        returned. */
    method AlignPread(buf: array<byte>, count: nat, offset: nat, misaligned: bool) returns (res: int, ghost raw: int)
      requires Valid() && Fits(count, offset, misaligned) && count <= buf.Length && buf != rbuffer && buf != wbuffer
      modifies this`rbuffer, this`rbufferSize, buf, Buffer(rbuffer), device`calls
      ensures Valid() && buf != rbuffer && buf != wbuffer && (rbuffer == old(rbuffer) || fresh(rbuffer))
      ensures res == (if count != CountNew(count, offset) || misaligned then Min(raw, Signed(count)) else raw)
      ensures RawOutcome(device.bytes, AlignDown(device.sectorSize, At(offset)), CountNew(count, offset), raw)
      ensures device.calls == old(device.calls)
        + [RawRead(AlignDown(device.sectorSize, At(offset)), CountNew(count, offset), raw)]
      ensures var n := Delivered(raw, At(offset) % device.sectorSize, count);
        n > 0 ==> At(offset) + n <= |device.bytes| && buf[..n] == device.bytes[At(offset)..At(offset) + n]
      ensures buf[count..] == old(buf[count..])
      ensures
        ReadFrom(device.bytes, this.offset + offset, (this.offset + offset) % device.sectorSize, raw, buf[..count])
    {
      hide Span, U32, AlignDown, Overwrite, Delivered, Min, Signed, ReadFrom, RawOutcome;
      var size := device.sectorSize;
      var offsetNew := offset + this.offset;
      var countNew := U32(Span(size, offsetNew, count));
      SpanBounds(size, offsetNew, count);
      NotCut(Span(size, offsetNew, count));
      if count != countNew || misaligned {
        res := ReadBounced(buf, count, AlignDown(size, offsetNew), offsetNew % size, countNew);
        raw := res;
        res := Min(res, Signed(count));
      } else {
        DirectAligned(size, offsetNew, count);
        res := device.Pread(buf, count, offsetNew);
        raw := res;
        DeliveredAll(raw, count);
      }
      DeliveredAre(buf[..count], device.bytes, offsetNew, offsetNew % size, raw, count);
    }

    /** The read by way of the read buffer. */
    method ReadBounced(buf: array<byte>, count: nat, start: nat, skip: nat, countNew: nat) returns (raw: int)
      requires Valid() && 0 < count <= buf.Length && skip + count <= countNew <= 0x8000_0000
      requires buf != rbuffer && buf != wbuffer && countNew % device.sectorSize == 0 && start % device.sectorSize == 0
      modifies this`rbuffer, this`rbufferSize, buf, Buffer(rbuffer), device`calls
      ensures Valid() && buf != rbuffer && buf != wbuffer && (rbuffer == old(rbuffer) || fresh(rbuffer))
      ensures RawOutcome(device.bytes, start, countNew, raw)
      ensures device.calls == old(device.calls) + [RawRead(start, countNew, raw)]
      ensures var n := Delivered(raw, skip, count);
        n > 0 ==> start + skip + n <= |device.bytes| && buf[..n] == device.bytes[start + skip..start + skip + n]
      ensures buf[count..] == old(buf[count..])
    {
      hide Overwrite, Delivered;
      NeedRbuffer(countNew);
      raw := device.Pread(rbuffer, countNew, start);
      CopiedOut(buf[..], rbuffer[..], device.bytes, start, skip, raw, count);
      CopyBytes(rbuffer, skip, buf, 0, count);
    }

    /** The sectors to be changed, read into the write buffer. */
    method FillWbuffer(countNew: nat, start: nat) returns (ghost pre: int)
      requires Valid() && wbuffer != null && countNew <= wbufferSize
      requires countNew % device.sectorSize == 0 && start % device.sectorSize == 0
      modifies Buffer(wbuffer), device`calls
      ensures Buffered(device.bytes, start, wbuffer[..countNew], pre)
      ensures device.calls == old(device.calls) + [RawRead(start, countNew, pre)]
    {
      var got := device.Pread(wbuffer, countNew, start);
      if got < 0 {
        ZeroBuffer(wbuffer);
      } else {
        assert wbuffer[..countNew][..got] == wbuffer[..got];
      }
      pre := got;
    }

    /** align_pwrite. block is what the write buffer held before the data went in, pre the result of the raw read that
        filled it, post that of the raw write, and wrote the bytes of the buffer that reached the device. */
    method AlignPwrite(buf: array<byte>, count: nat, offset: nat, misaligned: bool)
      returns (res: int, ghost block: seq<byte>, ghost pre: int, ghost post: int, ghost wrote: nat)
      requires Valid() && Fits(count, offset, misaligned) && count <= buf.Length && buf != rbuffer && buf != wbuffer
      modifies this`wbuffer, this`wbufferSize, Buffer(wbuffer), device`bytes, device`calls
      ensures Valid() && buf != rbuffer && buf != wbuffer && (wbuffer == old(wbuffer) || fresh(wbuffer))
      ensures |block| == CountNew(count, offset) && At(offset) % device.sectorSize + count <= |block|
        && wrote <= |block|
      ensures post <= |block| && (post >= 0 ==> wrote == post)
      ensures wrote > 0 ==> AlignDown(device.sectorSize, At(offset)) + wrote <= |old(device.bytes)|
      ensures device.bytes == Overwrite(old(device.bytes), AlignDown(device.sectorSize, At(offset)),
                                        Overwrite(block, At(offset) % device.sectorSize, buf[..count])[..wrote])
      ensures var bounced := count != CountNew(count, offset) || misaligned;
        && res == (if bounced then Min(post, Signed(count)) else post)
        && (bounced ==> Buffered(old(device.bytes), AlignDown(device.sectorSize, At(offset)), block, pre))
        && (!bounced ==> |block| == count && At(offset) % device.sectorSize == 0)
        && var start := AlignDown(device.sectorSize, At(offset));
        device.calls == old(device.calls) + (if bounced then [RawRead(start, |block|, pre)] else [])
          + [RawWrite(start, |block|, post)]
      ensures WroteAt(old(device.bytes), device.bytes, this.offset + offset, (this.offset + offset) % device.sectorSize,
                      block, buf[..count], wrote)
    {
      hide Span, U32, AlignDown, Overwrite, Buffered, Min, Signed, WroteAt;
      var size := device.sectorSize;
      var offsetNew := offset + this.offset;
      var countNew := U32(Span(size, offsetNew, count));
      SpanBounds(size, offsetNew, count);
      NotCut(Span(size, offsetNew, count));
      if count != countNew || misaligned {
        NeedWbuffer(countNew);
        pre := FillWbuffer(countNew, AlignDown(size, offsetNew));
        block := wbuffer[..countNew];
        ghost var all := wbuffer[..];
        CopyBytes(buf, 0, wbuffer, offsetNew % size, count);
        res, wrote := device.Pwrite(wbuffer, countNew, AlignDown(size, offsetNew));
        post := res;
        OverwriteTake(all, countNew, offsetNew % size, buf[..count], wrote);
        res := Min(res, Signed(count));
      } else {
        DirectAligned(size, offsetNew, count);
        WholeBlock(buf[..count]);
        block, pre := buf[..count], 0;
        res, wrote := device.Pwrite(buf, count, offsetNew);
        post := res;
        assert buf[..count][..wrote] == buf[..wrote];
      }
      WrittenAre(old(device.bytes), offsetNew, offsetNew % size, block, buf[..count], wrote);
    }
  }

  /** What the pre-read leaves in the write buffer: zeros after an error, else the bytes it delivered. */
  ghost predicate Buffered(bytes: seq<byte>, start: nat, block: seq<byte>, pre: int) {
    && pre <= |block|
    && (pre < 0 ==> forall k :: 0 <= k < |block| ==> block[k] == 0)
    && (pre > 0 ==> start + pre <= |bytes| && block[..pre] == bytes[start..start + pre])
  }

  /** memset(buffer, 0, size) */
  method ZeroBuffer(a: array<byte>)
    modifies a
    ensures forall k :: 0 <= k < a.Length ==> a[k] == 0
  {
    forall k | 0 <= k < a.Length { a[k] := 0; }
  }

  lemma OverwriteTake(bytes: seq<byte>, n: nat, offset: nat, data: seq<byte>, m: nat)
    requires offset + |data| <= n <= |bytes| && m <= n
    ensures Overwrite(bytes, offset, data)[..m] == Overwrite(bytes[..n], offset, data)[..m]
  {}

  lemma WholeBlock(data: seq<byte>)
    ensures Overwrite(data, 0, data) == data
  {}

  // ---- what the requests mean on a plain byte array ----

  /** The block differs from the device only where the data goes. */
  ghost predicate Faithful(bytes: seq<byte>, start: nat, block: seq<byte>, skip: nat, count: nat) {
    start + |block| <= |bytes|
    && forall k: nat :: k < |block| && !(skip <= k < skip + count) ==> block[k] == bytes[start + k]
  }

  lemma OverwriteAt(bytes: seq<byte>, offset: nat, data: seq<byte>, k: nat)
    requires offset + |data| <= |bytes| && k < |bytes|
    ensures Overwrite(bytes, offset, data)[k] == if offset <= k < offset + |data| then data[k - offset] else bytes[k]
  {}

  /** A write whose raw write is complete changes exactly the bytes asked for, if and only if the block it started from
      was faithful to the device. */
  lemma ExactWrite(bytes: seq<byte>, start: nat, block: seq<byte>, skip: nat, data: seq<byte>)
    requires start + |block| <= |bytes| && skip + |data| <= |block|
    ensures Overwrite(bytes, start, Overwrite(block, skip, data)) == Overwrite(bytes, start + skip, data)
      <==> Faithful(bytes, start, block, skip, |data|)
  {
    hide Overwrite;
    var merged := Overwrite(block, skip, data);
    var t, u := Overwrite(bytes, start, merged), Overwrite(bytes, start + skip, data);
    forall k: nat | k < |bytes|
      ensures t[k] == if start <= k < start + |block| then merged[k - start] else bytes[k]
      ensures u[k] == if start + skip <= k < start + skip + |data| then data[k - start - skip] else bytes[k]
    {
      OverwriteAt(bytes, start, merged, k);
      OverwriteAt(bytes, start + skip, data, k);
    }
    forall k: nat | k < |block| ensures merged[k] == if skip <= k < skip + |data| then data[k - skip] else block[k] {
      OverwriteAt(block, skip, data, k);
    }
    if t == u {
      forall k: nat | k < |block| && !(skip <= k < skip + |data|) ensures block[k] == bytes[start + k] {
        assert t[start + k] == merged[k];
      }
    } else {
      assert exists k: nat :: k < |bytes| && t[k] != u[k];
    }
  }

  /** A complete pre-read makes the block faithful. */
  lemma FullPreRead(bytes: seq<byte>, start: nat, block: seq<byte>, skip: nat, count: nat)
    requires Buffered(bytes, start, block, |block|) && block != []
    ensures Faithful(bytes, start, block, skip, count)
  {
    forall k: nat | k < |block| ensures block[k] == bytes[start + k] {
      assert block[..|block|][k] == bytes[start..start + |block|][k];
    }
  }

  /** After a failed pre-read the block is faithful only if the rest of its sectors is zero anyway: a write then loses
      any other neighbour. */
  lemma FailedPreRead(bytes: seq<byte>, start: nat, block: seq<byte>, skip: nat, count: nat)
    requires Buffered(bytes, start, block, -1) && start + |block| <= |bytes|
    ensures Faithful(bytes, start, block, skip, count)
      <==> forall j: nat :: start <= j < start + |block| && !(start + skip <= j < start + skip + count) ==>
        bytes[j] == 0
  {
    if Faithful(bytes, start, block, skip, count) {
      forall j: nat | start <= j < start + |block| && !(start + skip <= j < start + skip + count)
        ensures bytes[j] == 0
      {
        assert block[j - start] == 0;
      }
    }
  }

  /** One byte of the block that the pre-read has not filled and the write does not replace can hold anything. */
  lemma UnknownByte(bytes: seq<byte>, start: nat, n: nat, skip: nat, count: nat, pre: nat, k: nat)
    returns (block: seq<byte>)
    requires start + n <= |bytes| && pre <= k < n && !(skip <= k < skip + count)
    ensures |block| == n && Buffered(bytes, start, block, pre) && !Faithful(bytes, start, block, skip, count)
  {
    var other := if bytes[start + k] == 0 then 1 else 0;
    block := bytes[start..start + n][k := other];
    assert block[k] != bytes[start + k];
  }

  /** Which pre-reads are enough, whatever the rest of the write buffer holds: complete ones, and those that reach the
      data when nothing follows it. A partial pre-read is not reported by align_pwrite. */
  lemma PreReadSuffices(bytes: seq<byte>, start: nat, n: nat, skip: nat, count: nat, pre: nat)
    requires start + n <= |bytes| && pre <= n && count > 0 && skip + count <= n
    ensures (forall block: seq<byte> :: |block| == n && Buffered(bytes, start, block, pre) ==>
               Faithful(bytes, start, block, skip, count))
      <==> pre == n || (skip + count == n && pre >= skip)
  {
    if pre == n || (skip + count == n && pre >= skip) {
      forall block: seq<byte> | |block| == n && Buffered(bytes, start, block, pre)
        ensures Faithful(bytes, start, block, skip, count)
      {
        forall k: nat | k < n && !(skip <= k < skip + count) ensures block[k] == bytes[start + k] {
          assert block[..pre][k] == bytes[start..start + pre][k];
        }
      }
    } else {
      var k := if skip + count < n then Max(pre, skip + count) else pre;
      var block := UnknownByte(bytes, start, n, skip, count, pre, k);
    }
  }

  function Max(a: nat, b: nat): nat {
    if a < b then b else a
  }

  /** What file_pread_aux leaves in the buffer: the bytes it got, then zeros; after an error only zeros. */
  ghost predicate ZeroFilled(bytes: seq<byte>, start: nat, block: seq<byte>, pre: int) {
    && Buffered(bytes, start, block, pre)
    && forall k :: 0 <= k < |block| && k >= pre ==> block[k] == 0
  }

  /** With that raw read a write loses, after a partial pre-read as after a failed one, exactly the neighbours beyond
      the bytes read that are not zero. */
  lemma ZeroFilledPreRead(bytes: seq<byte>, start: nat, block: seq<byte>, skip: nat, count: nat, pre: int)
    requires ZeroFilled(bytes, start, block, pre) && start + |block| <= |bytes|
    ensures Faithful(bytes, start, block, skip, count)
      <==> forall j: nat :: start <= j < start + |block| && start + pre <= j ==>
             bytes[j] == 0 || start + skip <= j < start + skip + count
  {
    forall k: nat | k < |block| && k < pre ensures block[k] == bytes[start + k] {
      assert block[..pre][k] == bytes[start..start + pre][k];
    }
    if Faithful(bytes, start, block, skip, count) {
      forall j: nat | start <= j < start + |block| && j >= start + pre && !(start + skip <= j < start + skip + count)
        ensures bytes[j] == 0
      {
        assert block[j - start] == 0;
      }
    } else {
      var k: nat :| k < |block| && !(skip <= k < skip + count) && block[k] != bytes[start + k];
      assert bytes[start + k] != 0;
    }
  }

  /** Before the call: a write is exact whatever the pre-read returns if and only if it covers whole sectors. */
  lemma AlwaysExact(bytes: seq<byte>, size: nat, at: nat, data: seq<byte>)
    requires size > 0 && data != [] && AlignDown(size, at) + Span(size, at, |data|) <= |bytes|
    ensures at + |data| <= |bytes| && at % size + |data| <= Span(size, at, |data|)
    ensures (forall block: seq<byte>, pre: int ::
               |block| == Span(size, at, |data|) && Buffered(bytes, AlignDown(size, at), block, pre) ==>
               Overwrite(bytes, AlignDown(size, at), Overwrite(block, at % size, data)) == Overwrite(bytes, at, data))
      <==> at % size == 0 && |data| % size == 0
  {
    hide Overwrite, Buffered, Faithful, Span, AlignDown;
    var start, n, skip := AlignDown(size, at), Span(size, at, |data|), at % size;
    SpanBounds(size, at, |data|);
    if skip == 0 && |data| % size == 0 {
      WholeSectors(size, at, |data|);
      forall block: seq<byte>, pre: int | |block| == n && Buffered(bytes, start, block, pre)
        ensures Overwrite(bytes, start, Overwrite(block, skip, data)) == Overwrite(bytes, at, data)
      {
        Covering(bytes, start, block);
        ExactWrite(bytes, start, block, skip, data);
      }
    } else {
      PreReadSuffices(bytes, start, n, skip, |data|, 0);
      WholeSectors(size, at, |data|);
      var block: seq<byte> :| |block| == n && Buffered(bytes, start, block, 0)
        && !Faithful(bytes, start, block, skip, |data|);
      ExactWrite(bytes, start, block, skip, data);
    }
  }

  lemma WholeSectors(size: nat, at: nat, count: nat)
    requires size > 0 && count > 0
    ensures Span(size, at, count) == count <==> at % size == 0 && count % size == 0
  {
    if at % size == 0 && count % size == 0 {
      var k := count / size;
      assert count == k * size;
      DivModUnique(count + size - 1, size, k, size - 1);
    } else if Span(size, at, count) == count {
      DirectAligned(size, at, count);
    }
  }

  // ---- the count that align_pread returns ----

  /** What a raw read of n bytes at start can return. */
  ghost predicate RawOutcome(bytes: seq<byte>, start: nat, n: nat, raw: int) {
    -1 <= raw <= n && (raw > 0 ==> start + raw <= |bytes|)
  }

  /** The count returned by align_pread claims more bytes than were delivered exactly when the raw read stopped short of
      the bytes asked for and these do not start at a sector boundary. */
  lemma ShortReadOverstated(raw: int, skip: nat, count: nat)
    requires 0 < count < 0x8000_0000
    ensures Min(raw, Signed(count)) > Delivered(raw, skip, count) <==> 0 < skip && 0 < raw < skip + count
  {}

  /** Before the call: no outcome of the raw read makes the count returned too large if and only if the request starts
      at a sector boundary, or its sectors lie behind the end of the device. */
  lemma CountHonest(bytes: seq<byte>, size: nat, at: nat, count: nat)
    requires size > 0 && 0 < count < 0x8000_0000
    ensures (forall raw: int :: RawOutcome(bytes, AlignDown(size, at), Span(size, at, count), raw) ==>
               Min(raw, Signed(count)) <= Delivered(raw, at % size, count))
      <==> at % size == 0 || AlignDown(size, at) >= |bytes|
  {
    hide Span, AlignDown, Signed, Delivered, Min;
    SpanBounds(size, at, count);
    forall raw: int ensures Min(raw, Signed(count)) > Delivered(raw, at % size, count)
      <==> 0 < at % size && 0 < raw < at % size + count
    {
      ShortReadOverstated(raw, at % size, count);
    }
    assert RawOutcome(bytes, AlignDown(size, at), Span(size, at, count), 1) <==> AlignDown(size, at) < |bytes|;
  }

  /** An input: an image file of 50 bytes, of which bytes 100 to 109 are asked for. If the raw read delivers all there
      is, align_pread reports 10 bytes, although the file has none there and the caller gets what the buffer held
      before. */
  method ShortReadExample(buf: array<byte>) returns (res: int, ghost raw: int)
    requires buf.Length == 10
    modifies buf
    ensures RawOutcome(seq(50, i => 7), 0, 512, raw) && RawOutcome(seq(50, i => 7), 0, 512, 50)
    ensures res == Min(raw, 10) && Delivered(raw, 100, 10) == 0
    ensures raw == 50 ==> res == 10
  {
    var device := new Device(seq(50, i => 7), 512);
    var disk := new Disk(device, 0);
    res, raw := disk.AlignPread(buf, 10, 100, false);
  }

  /** Every request whose sectors take at most 2^31 bytes comes out right. */
  lemma SmallRequests(disk: Disk, count: nat, offset: nat, misaligned: bool)
    requires 0 < disk.device.sectorSize && 0 < count && disk.offset + offset < 0x1_0000_0000_0000_0000
    requires (disk.offset + offset) % disk.device.sectorSize + count + disk.device.sectorSize <= 0x8000_0001
    ensures disk.Fits(count, offset, misaligned)
  {
    hide Span;
    SpanBounds(disk.device.sectorSize, disk.At(offset), count);
  }

  /** Write, then read the same place: when the raw calls are complete, the data comes back, and the device holds what a
      plain byte array would. */
  method WriteThenRead(disk: Disk, buf: array<byte>, back: array<byte>, count: nat, offset: nat, m: bool, n: bool)
    returns (ghost complete: bool, res: int)
    requires disk.Valid() && disk.Fits(count, offset, m) && disk.Fits(count, offset, n)
    requires count < 0x8000_0000 && count <= buf.Length && count <= back.Length
    requires buf != back && {buf, back} !! Buffer(disk.rbuffer) + Buffer(disk.wbuffer)
    modifies disk, back, Buffer(disk.rbuffer), Buffer(disk.wbuffer), disk.device`bytes, disk.device`calls
    ensures complete ==>
      && res == count && back[..count] == buf[..count]
      && disk.At(offset) + count <= |old(disk.device.bytes)|
      && disk.device.bytes == Overwrite(old(disk.device.bytes), disk.At(offset), buf[..count])
  {
    hide Overwrite, Span, U32, AlignDown, Faithful, Buffered, Delivered;
    ghost var size, at := disk.device.sectorSize, disk.At(offset);
    ghost var bytes := disk.device.bytes;
    SpanBounds(size, at, count);
    NotCut(Span(size, at, count));
    var r: int;
    ghost var block, pre, post, wrote, raw;
    r, block, pre, post, wrote := disk.AlignPwrite(buf, count, offset, m);
    res, raw := disk.AlignPread(back, count, offset, n);
    complete := post == |block| && raw == |block| && (pre == |block| || (count == |block| && !m));
    if complete {
      assert Overwrite(block, at % size, buf[..count])[..wrote] == Overwrite(block, at % size, buf[..count]);
      if count != |block| || m {
        FullPreRead(bytes, AlignDown(size, at), block, at % size, count);
      } else {
        Covering(bytes, AlignDown(size, at), block);
      }
      ExactWrite(bytes, AlignDown(size, at), block, at % size, buf[..count]);
      DeliveredFull(raw, at % size, count);
      OverwriteReads(bytes, at, buf[..count]);
    }
  }

  lemma Covering(bytes: seq<byte>, start: nat, block: seq<byte>)
    requires start + |block| <= |bytes|
    ensures Faithful(bytes, start, block, 0, |block|)
  {}

  lemma DeliveredFull(raw: int, skip: nat, count: nat)
    requires raw >= skip + count
    ensures Delivered(raw, skip, count) == count
  {}

  lemma OverwriteReads(bytes: seq<byte>, at: nat, data: seq<byte>)
    requires at + |data| <= |bytes|
    ensures Overwrite(bytes, at, data)[at..at + |data|] == data
  {}

  lemma DeliveredAll(raw: int, count: nat)
    requires raw <= count
    ensures Delivered(raw, 0, count) == if raw > 0 then raw else 0
  {}

  lemma NotCut(x: nat)
    requires x < WORD
    ensures U32(x) == x
  {}
}
