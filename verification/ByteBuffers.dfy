/** cByteBuffer: a ring buffer with a read mark. */
module ByteBuffers {
  import opened Base128
  import opened Bytes
  import opened CInts
  import opened Options

  /** The cursor n places after p in a ring of size positions. */
  function Advance(p: nat, n: nat, size: nat): (r: nat)
    requires p < size && n <= size
    ensures r < size
  {
    if p + n < size then p + n else p + n - size
  }

  class ByteBuffer {
    const buffer: array<byte>
    var dataStart: nat
    var writePos: nat
    var readPos: nat

    /** Everything between dataStart and writePos, of which the first mark bytes were read. */
    ghost var all: bytes
    ghost var mark: nat

    ghost predicate Valid()
      reads this, buffer
    {
      var n := buffer.Length;
      && dataStart < n && |all| < n && mark <= |all|
      && readPos == Advance(dataStart, mark, n) && writePos == Advance(dataStart, |all|, n)
      && forall i :: 0 <= i < |all| ==> buffer[Advance(dataStart, i, n)] == all[i]
    }

    /** What was read since the last commit, and what was not read yet. */
    ghost function Kept(): bytes
      reads this
      requires mark <= |all|
    {
      all[..mark]
    }

    ghost function Unread(): bytes
      reads this
      requires mark <= |all|
    {
      all[mark..]
    }

    constructor (size: nat)
      ensures Valid() && fresh(buffer) && all == [] && mark == 0 && buffer.Length == size + 1
    {
      buffer := new byte[size + 1];
      dataStart, writePos, readPos := 0, 0, 0;
      all, mark := [], 0;
    }

    /** cByteBuffer::ClearAll; its memset is given the length and the value in the wrong order, and so
        sets nothing. */
    method ClearAll()
      requires Valid()
      modifies this
      ensures Valid() && all == [] && mark == 0
    {
      dataStart, writePos, readPos := 0, 0, 0;
      all, mark := [], 0;
    }

    function FreeSpace(): (r: int)
      requires Valid()
      reads this, buffer
      ensures r == buffer.Length - 1 - |all|
    {
      if writePos >= dataStart then buffer.Length - writePos + dataStart - 1 else dataStart - writePos - 1
    }

    function UsedSpace(): (r: int)
      requires Valid()
      reads this, buffer
      ensures r == |all| && r + FreeSpace() == buffer.Length - 1
    {
      buffer.Length - FreeSpace() - 1
    }

    function ReadableSpace(): (r: int)
      requires Valid()
      reads this, buffer
      ensures r == |Unread()|
    {
      if readPos > writePos then buffer.Length - readPos + writePos else writePos - readPos
    }

    predicate CanReadBytes(count: nat)
      requires Valid()
      reads this, buffer
    {
      count <= ReadableSpace()
    }

    predicate CanWriteBytes(count: nat)
      requires Valid()
      reads this, buffer
    {
      count <= FreeSpace()
    }

    /** memcpy into the ring, which wraps around at most once. */
    method CopyIn(bytes: bytes)
      requires writePos < buffer.Length && |bytes| < buffer.Length
      modifies this`writePos, buffer
      ensures writePos == Advance(old(writePos), |bytes|, buffer.Length)
      ensures forall i :: 0 <= i < |bytes| ==> buffer[Advance(old(writePos), i, buffer.Length)] == bytes[i]
      ensures forall p ::
        0 <= p < buffer.Length && (forall i :: 0 <= i < |bytes| ==> p != Advance(old(writePos), i, buffer.Length)) ==>
        buffer[p] == old(buffer[p])
    {
      var count, done := |bytes|, 0;
      var tillEnd := buffer.Length - writePos;
      ghost var start := writePos;
      if tillEnd <= count {
        forall i | 0 <= i < tillEnd {
          buffer[writePos + i] := bytes[i];
        }
        done := tillEnd;
        writePos := 0;
      }
      ghost var mid := buffer[..];
      forall i | 0 <= i < count - done {
        buffer[writePos + i] := bytes[done + i];
      }
      writePos := writePos + (count - done);
    }

    /** cByteBuffer::Write and cByteBuffer::WriteBuf */
    method Write(bytes: bytes) returns (ok: bool)
      requires Valid()
      modifies this`writePos, this`all, buffer
      ensures Valid()
      ensures ok <==> |bytes| <= old(FreeSpace())
      ensures all == if ok then old(all) + bytes else old(all)
      ensures !ok ==> unchanged(this) && unchanged(buffer)
    {
      if !CanWriteBytes(|bytes|) {
        return false;
      }
      CopyIn(bytes);
      all := all + bytes;
      return true;
    }

    /** memcpy out of the ring, which wraps around at most once. */
    method CopyOut(count: nat) returns (data: bytes)
      requires readPos < buffer.Length && count < buffer.Length
      modifies this`readPos
      ensures readPos == Advance(old(readPos), count, buffer.Length) && |data| == count
      ensures forall i :: 0 <= i < count ==> data[i] == buffer[Advance(old(readPos), i, buffer.Length)]
    {
      data := [];
      var left := count;
      var toEnd := buffer.Length - readPos;
      if toEnd <= left {
        data := buffer[readPos..];
        left := left - toEnd;
        readPos := 0;
      }
      data := data + buffer[readPos..readPos + left];
      readPos := readPos + left;
    }

    /** cByteBuffer::ReadBuf and cByteBuffer::ReadString */
    method Read(count: nat) returns (ok: bool, data: bytes)
      requires Valid()
      modifies this`readPos, this`mark
      ensures Valid() && all == old(all)
      ensures ok <==> count <= |old(Unread())|
      ensures ok ==> mark == old(mark) + count && data == old(Unread())[..count] && Unread() == old(Unread())[count..]
      ensures !ok ==> unchanged(this) && data == []
    {
      data := [];
      if !CanReadBytes(count) {
        return false, data;
      }
      ghost var start := readPos;
      data := CopyOut(count);
      RingRead(start, count, data);
      mark := mark + count;
      return true, data;
    }

    lemma RingRead(start: nat, count: nat, data: bytes)
      requires buffer.Length > 0 && dataStart < buffer.Length && |all| < buffer.Length && mark + count <= |all|
      requires start == Advance(dataStart, mark, buffer.Length) && |data| == count
      requires forall i :: 0 <= i < |all| ==> buffer[Advance(dataStart, i, buffer.Length)] == all[i]
      requires forall i :: 0 <= i < count ==> data[i] == buffer[Advance(start, i, buffer.Length)]
      ensures data == all[mark..][..count]
      ensures all[mark + count..] == all[mark..][count..]
    {
      forall i | 0 <= i < count
        ensures data[i] == all[mark + i]
      {
        assert Advance(start, i, buffer.Length) == Advance(dataStart, mark + i, buffer.Length);
      }
    }

    /** cByteBuffer::AdvanceReadPos */
    method AdvanceReadPos(count: nat)
      requires Valid() && count <= |Unread()|
      modifies this`readPos, this`mark
      ensures Valid() && mark == old(mark) + count
    {
      readPos := readPos + count;
      if readPos >= buffer.Length {
        readPos := readPos - buffer.Length;
      }
      mark := mark + count;
    }

    /** cByteBuffer::SkipRead */
    method SkipRead(count: nat) returns (ok: bool)
      requires Valid()
      modifies this`readPos, this`mark
      ensures Valid() && (ok <==> count <= |old(Unread())|)
      ensures mark == if ok then old(mark) + count else old(mark)
    {
      if !CanReadBytes(count) {
        return false;
      }
      AdvanceReadPos(count);
      return true;
    }

    /** cByteBuffer::ReadAll */
    method ReadAll() returns (data: bytes)
      requires Valid()
      modifies this`readPos, this`mark
      ensures Valid() && data == old(Unread()) && Unread() == [] && all == old(all)
    {
      var _, d := Read(ReadableSpace());
      data := d;
    }

    /** cByteBuffer::CommitRead: what was read is forgotten. */
    method CommitRead()
      requires Valid()
      modifies this`dataStart, this`all, this`mark
      ensures Valid() && Kept() == [] && Unread() == old(Unread())
    {
      ghost var m := mark;
      forall i | 0 <= i < |all| - m
        ensures Advance(Advance(dataStart, m, buffer.Length), i, buffer.Length) ==
          Advance(dataStart, m + i, buffer.Length)
      {}
      dataStart := readPos;
      all := all[mark..];
      mark := 0;
    }

    /** cByteBuffer::ResetRead: what was read can be read again. */
    method ResetRead()
      requires Valid()
      modifies this`readPos, this`mark
      ensures Valid() && Kept() == [] && Unread() == old(Kept()) + old(Unread()) && all == old(all)
    {
      readPos := dataStart;
      Rejoin(all, mark);
      mark := 0;
    }

    /** cByteBuffer::ReadAgain: what was read since the last commit. */
    method ReadAgain() returns (out: bytes)
      requires Valid()
      ensures out == Kept()
    {
      var start := dataStart;
      out := [];
      if readPos < dataStart {
        out := buffer[dataStart..];
        start := 0;
      }
      out := out + buffer[start..readPos];
      assert forall i :: 0 <= i < mark ==> out[i] == buffer[Advance(dataStart, i, buffer.Length)];
    }
  }

  /** After done bytes of s, which go behind d. */
  ghost predicate Moved(src: ByteBuffer, dst: ByteBuffer, s: bytes, d: bytes, done: nat)
    reads src, src.buffer, dst, dst.buffer
  {
    && src.Valid() && dst.Valid() && done <= |s|
    && src.Unread() == s[done..] && dst.all == d + s[..done]
  }

  /** One block. */
  method MoveBlock(src: ByteBuffer, dst: ByteBuffer, num: nat, ghost s: bytes, ghost d: bytes, ghost done: nat)
    requires Moved(src, dst, s, d, done) && src != dst && src.buffer != dst.buffer
    requires done + num <= |s| && |d| + done + num < dst.buffer.Length
    modifies src`readPos, src`mark, dst`writePos, dst`all, dst.buffer
    ensures Moved(src, dst, s, d, done + num) && src.mark == old(src.mark) + num
  {
    hide Advance;
    var ok, buf := src.Read(num);
    ok := dst.Write(buf);
    NextBlock(s, d, done, num);
  }

  /** cByteBuffer::ReadToByteBuffer, which goes through a block of 1024 bytes at a time. */
  method ReadToByteBuffer(src: ByteBuffer, dst: ByteBuffer, numBytes: nat) returns (ok: bool)
    requires src.Valid() && dst.Valid() && src != dst && src.buffer != dst.buffer
    modifies src`readPos, src`mark, dst`writePos, dst`all, dst.buffer
    ensures src.Valid() && dst.Valid()
    ensures ok <==> numBytes <= |old(src.Unread())| && numBytes <= old(dst.FreeSpace())
    ensures ok ==> src.Unread() == old(src.Unread())[numBytes..]
    ensures ok ==> dst.all == old(dst.all) + old(src.Unread())[..numBytes]
    ensures ok ==> src.mark == old(src.mark) + numBytes && dst.mark == old(dst.mark)
    ensures !ok ==> unchanged(src) && unchanged(dst)
  {
    hide Advance;
    if !dst.CanWriteBytes(numBytes) || !src.CanReadBytes(numBytes) {
      return false;
    }
    ghost var s, d := src.Unread(), dst.all;
    assert Moved(src, dst, s, d, 0) by { assert s[..0] == [] && s[0..] == s && d + [] == d; }
    MoveBlocks(src, dst, numBytes, s, d);
    return true;
  }

  method MoveBlocks(src: ByteBuffer, dst: ByteBuffer, numBytes: nat, ghost s: bytes, ghost d: bytes)
    requires Moved(src, dst, s, d, 0) && src != dst && src.buffer != dst.buffer
    requires numBytes <= |s| && |d| + numBytes < dst.buffer.Length
    modifies src`readPos, src`mark, dst`writePos, dst`all, dst.buffer
    ensures Moved(src, dst, s, d, numBytes) && src.mark == old(src.mark) + numBytes
  {
    hide Moved;
    var left: nat := numBytes;
    while left != 0
      invariant left <= numBytes && src.mark == old(src.mark) + (numBytes - left)
      invariant Moved(src, dst, s, d, numBytes - left)
    {
      var num := if left > 1024 then 1024 else left;
      MoveBlock(src, dst, num, s, d, numBytes - left);
      left := left - num;
    }
  }

  lemma NextBlock(s: bytes, d: bytes, done: nat, num: nat)
    requires done + num <= |s|
    ensures d + s[..done] + s[done..][..num] == d + s[..done + num] && s[done..][num..] == s[done + num..]
  {}

  // ----- numbers of variable length

  /** What the bytes at the start of s spell, up to the first without a high bit. */
  function DecodeVar(s: bytes): (r: Option<Decoded>)
    ensures r.Some? ==> 0 < r.value.len <= |s|
  {
    if |s| == 0 then None
    else if s[0] < 128 then Some(Decoded(s[0] as nat, 1))
    else
      var r := DecodeVar(s[1..]);
      if r.None? then None else Some(Decoded(s[0] as nat % 128 + 128 * r.value.value, 1 + r.value.len))
  }

  /** Whatever follows, a number decodes to itself and only its own bytes are read. */
  lemma {:induction false} VarRoundTrip(n: nat, rest: bytes)
    ensures DecodeVar(SevenBits(n) + rest) == Some(Decoded(n, |SevenBits(n)|))
  {
    if n >= 128 {
      VarRoundTrip(n / 128, rest);
      assert (SevenBits(n) + rest)[1..] == SevenBits(n / 128) + rest;
    }
  }

  lemma {:induction false} VarLength(n: nat, k: nat)
    requires k > 0 && n < Pow128(k)
    ensures |SevenBits(n)| <= k
  {
    if n >= 128 {
      VarLength(n / 128, k - 1);
    }
  }

  /** A 32-bit number takes at most 5 bytes, a 64-bit number at most 10. */
  lemma VarLengths(n: nat)
    ensures n < 0x1_0000_0000 ==> |SevenBits(n)| <= 5
    ensures n < 0x1_0000_0000_0000_0000 ==> |SevenBits(n)| <= 10
  {
    assert Pow128(5) == 0x8_0000_0000;
    assert Pow128(10) == 0x8_0000_0000 * 0x8_0000_0000 by {
      assert Pow128(10) == 128 * 128 * 128 * 128 * 128 * Pow128(5);
    }
    if n < 0x1_0000_0000 {
      VarLength(n, 5);
    }
    if n < 0x1_0000_0000_0000_0000 {
      VarLength(n, 10);
    }
  }

  /** cByteBuffer::WriteVarInt32 and cByteBuffer::WriteVarInt64, whose array has room for 5 or 10 bytes. */
  method WriteVarInt(b: ByteBuffer, value: nat, size: nat) returns (ok: bool)
    requires b.Valid() && ((size == 5 && value < TWO_32) || (size == 10 && value < TWO_64))
    modifies b`writePos, b`all, b.buffer
    ensures b.Valid()
    ensures ok <==> |SevenBits(value)| <= old(b.FreeSpace())
    ensures b.all == if ok then old(b.all) + SevenBits(value) else old(b.all)
    ensures !ok ==> unchanged(b) && unchanged(b.buffer)
  {
    hide Advance, SevenBits, ByteBuffer.Valid;
    var bytes := new byte[size];
    VarLengths(value);
    var idx, v := 0, value;
    assert bytes[..0] + SevenBits(value) == SevenBits(value);
    while true
      invariant idx < size && bytes[..idx] + SevenBits(v) == SevenBits(value)
      modifies bytes
      decreases v
    {
      var lower := v % 128 + if v > 0x7F then 0x80 else 0;
      bytes[idx] := lower as byte;
      idx := idx + 1;
      SevenBitsStep(bytes[..idx - 1], bytes[..idx], v, lower);
      v := v / 128;
      if v == 0 {
        break;
      }
    }
    ok := b.Write(bytes[..idx]);
  }

  lemma DecodeOne(s: bytes)
    requires |s| > 0
    ensures DecodeVar(s) ==
      if s[0] < 128 then Some(Decoded(s[0] as nat % 128, 1))
      else if DecodeVar(s[1..]).None? then None
      else Some(Decoded(s[0] as nat % 128 + 128 * DecodeVar(s[1..]).value.value, 1 + DecodeVar(s[1..]).value.len))
  {}

  /** One round of reading a number. */
  lemma VarStep(u: bytes, n: nat, sum: nat, c: nat, width: nat)
    requires n < |u| && c == u[n] as nat && (width == TWO_32 || width == TWO_64)
    ensures u[n..][1..] == u[n + 1..] && u[n..][..1] == [u[n]]
    ensures var t := Shifted(c % 128, n);
      && Wrap(Wrap(sum, width) + t, width) == Wrap(sum + t, width)
      && Combine(sum, n, DecodeVar(u[n..])) == if c < 128 then Some(Decoded(sum + t, n + 1))
        else Combine(sum + t, n + 1, DecodeVar(u[n + 1..]))
  {
    hide Shifted, DecodeVar, Combine;
    var s := u[n..];
    DecodeOne(s);
    CombineNext(sum, n, c % 128, DecodeVar(s[1..]));
    CombineLast(sum, n, c % 128);
    AddMod(sum, Shifted(c % 128, n), width);
    assert u[n..][1..] == u[n + 1..];
  }

  /** Arithmetic in a word. */
  function Wrap(x: nat, width: nat): nat
    requires width > 0
  {
    x % width
  }

  lemma AddMod(s: nat, t: nat, m: nat)
    requires m == TWO_32 || m == TWO_64
    ensures Wrap(Wrap(s, m) + t, m) == Wrap(s + t, m)
  {
    if m == TWO_32 {
      Multiple32(s / TWO_32, s % TWO_32 + t);
    } else {
      Multiple64(s / TWO_64, s % TWO_64 + t);
    }
  }

  lemma Multiple32(q: nat, x: nat)
    ensures Wrap(TWO_32 * q + x, TWO_32) == Wrap(x, TWO_32)
  {}

  lemma Multiple64(q: nat, x: nat)
    ensures Wrap(TWO_64 * q + x, TWO_64) == Wrap(x, TWO_64)
  {}

  /** cByteBuffer::ReadVarInt32 and cByteBuffer::ReadVarInt64, in arithmetic modulo the width.  The bytes
      read so far are gone when the number is not complete. */
  method ReadVarInt(b: ByteBuffer, width: nat) returns (ok: bool, value: nat)
    requires b.Valid() && (width == TWO_32 || width == TWO_64)
    modifies b`readPos, b`mark
    ensures b.Valid() && b.all == old(b.all)
    ensures var d := DecodeVar(old(b.Unread()));
      if d.None? then !ok && b.Unread() == []
      else ok && value == Wrap(d.value.value, width) && b.Unread() == old(b.Unread())[d.value.len..]
  {
    hide Advance, DecodeVar, Combine, Shifted, Wrap;
    value := 0;
    var n: nat := 0; // the source counts the shift, which is seven times this
    ghost var u, sum: nat := b.Unread(), 0;
    assert u[0..] == u;
    CombineStart(DecodeVar(u));
    assert Wrap(0, width) == 0 by { ZeroWraps(width); }
    while true
      invariant b.Valid() && b.all == old(b.all) && n <= |u| && b.Unread() == u[n..]
      invariant value == Wrap(sum, width) && DecodeVar(u) == Combine(sum, n, DecodeVar(u[n..]))
      decreases |u| - n
    {
      var got, one := b.Read(1);
      if !got {
        CombineEnd(sum, n, u[n..]);
        return false, 0;
      }
      var c := one[0] as nat;
      VarStep(u, n, sum, c, width);
      value := Wrap(value + Shifted(c % 128, n), width);
      sum := sum + Shifted(c % 128, n);
      n := n + 1;
      if c < 128 {
        return true, value;
      }
    }
  }

  lemma ZeroWraps(width: nat)
    requires width > 0
    ensures Wrap(0, width) == 0
  {}

  lemma CombineEnd(value: nat, n: nat, s: bytes)
    requires |s| == 0
    ensures Combine(value, n, DecodeVar(s)).None?
  {}

  // ----- positions

  function BigEndian(v: nat, n: nat): (b: bytes)
    ensures |b| == n
  {
    if n == 0 then [] else BigEndian(v / 256, n - 1) + [(v % 256) as byte]
  }

  function FromBigEndian(b: bytes): nat {
    if b == [] then 0 else 256 * FromBigEndian(b[..|b| - 1]) + b[|b| - 1] as nat
  }

  function Pow256(n: nat): (p: nat)
    ensures p > 0
  {
    if n == 0 then 1 else 256 * Pow256(n - 1)
  }

  lemma {:induction false} BigEndianRoundTrip(v: nat, n: nat)
    requires v < Pow256(n)
    ensures FromBigEndian(BigEndian(v, n)) == v
  {
    if n > 0 {
      BigEndianRoundTrip(v / 256, n - 1);
      var b := BigEndian(v, n);
      assert b[..|b| - 1] == BigEndian(v / 256, n - 1);
    }
  }

  const TWO_12: nat := 0x1000
  const TWO_25: nat := 0x200_0000
  const MIN_26: int := -0x200_0000
  const TWO_26: nat := 0x400_0000
  const TWO_38: nat := 0x40_0000_0000

  datatype Position = Position(x: int, y: int, z: int)

  /** The 64 bits of WritePosition64: 26 bits of x, 12 bits of y and 26 bits of z. */
  function Pack(p: Position): (v: nat)
    ensures v < TWO_64
  {
    p.x % TWO_26 * TWO_38 + p.y % TWO_12 * TWO_26 + p.z % TWO_26
  }

  /** The conversions of ReadPosition64.  That of a y whose highest bit is set subtracts from half of
      what it should. */
  function Unpack(v: nat): Position {
    var x, y, z := v / TWO_38 % TWO_26, v / TWO_26 % TWO_12, v % TWO_26;
    Position(
      if x < TWO_25 then x else -(TWO_26 - x),
      if y < 0x800 then y else -(0x800 - y),
      if z < TWO_25 then z else -(TWO_26 - z))
  }

  lemma UnpackParts(a: nat, b: nat, c: nat)
    requires a < TWO_26 && b < TWO_12 && c < TWO_26
    ensures var v := a * TWO_38 + b * TWO_26 + c;
      v / TWO_38 % TWO_26 == a && v / TWO_26 % TWO_12 == b && v % TWO_26 == c
  {}

  /** A position comes back exactly if x and z fit into 26 signed bits and y into 11 unsigned bits; no
      negative y does. */
  lemma PositionRoundTrip(p: Position)
    ensures Unpack(Pack(p)) == p <==> MIN_26 <= p.x < TWO_25 && 0 <= p.y < 0x800 && MIN_26 <= p.z < TWO_25
  {
    UnpackParts(p.x % TWO_26, p.y % TWO_12, p.z % TWO_26);
  }

  /** A negative y of 12 bits comes back too large by 0x800. */
  lemma NegativeY(p: Position)
    requires MIN_26 <= p.x < TWO_25 && -0x800 <= p.y < 0 && MIN_26 <= p.z < TWO_25
    ensures Unpack(Pack(p)) == p.(y := p.y + 0x800)
  {
    UnpackParts(p.x % TWO_26, p.y % TWO_12, p.z % TWO_26);
  }

  /** cByteBuffer::WritePosition64 */
  method WritePosition64(b: ByteBuffer, p: Position) returns (ok: bool)
    requires b.Valid()
    modifies b`writePos, b`all, b.buffer
    ensures b.Valid() && (ok <==> 8 <= old(b.FreeSpace()))
    ensures b.all == if ok then old(b.all) + BigEndian(Pack(p), 8) else old(b.all)
  {
    ok := b.Write(BigEndian(Pack(p), 8));
  }

  /** cByteBuffer::ReadPosition64; a position that was written comes back if it is in range. */
  method ReadPosition64(b: ByteBuffer, ghost written: Position, ghost rest: bytes) returns (ok: bool, p: Position)
    requires b.Valid()
    modifies b`readPos, b`mark
    ensures b.Valid() && b.all == old(b.all) && (ok <==> 8 <= |old(b.Unread())|)
    ensures ok ==> p == Unpack(FromBigEndian(old(b.Unread())[..8])) && b.Unread() == old(b.Unread())[8..]
    ensures old(b.Unread()) == BigEndian(Pack(written), 8) + rest && Unpack(Pack(written)) == written ==>
      ok && p == written && b.Unread() == rest
    ensures !ok ==> unchanged(b)
  {
    hide Pack, Unpack, BigEndian, FromBigEndian, Advance;
    var data;
    ok, data := b.Read(8);
    if !ok {
      return false, Position(0, 0, 0);
    }
    p := Unpack(FromBigEndian(data));
    Pow256Is();
    BigEndianRoundTrip(Pack(written), 8);
    assert (BigEndian(Pack(written), 8) + rest)[..8] == BigEndian(Pack(written), 8);
    assert (BigEndian(Pack(written), 8) + rest)[8..] == rest;
  }

  lemma Pow256Is()
    ensures Pow256(8) == TWO_64
  {
    assert Pow256(4) == TWO_32;
    assert Pow256(8) == 256 * 256 * 256 * 256 * Pow256(4);
  }
}
