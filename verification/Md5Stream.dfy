/** The streaming MD5 of the server: any way of cutting a message into updates gives the digest that
    RFC 1321 defines. */
module Md5Stream {
  import opened Bytes
  import opened CInts
  import opened Md5Block

  // ----- RFC 1321

  /** A block of 64 bytes as 16 little-endian words. */
  function Decode(b: bytes): (x: seq<Word>)
    ensures |x| == |b| / 4
  {
    if |b| < 4 then []
    else
      var word := b[0] as int + 0x100 * b[1] as int + 0x1_0000 * b[2] as int + 0x100_0000 * b[3] as int;
      [word as Word] + Decode(b[4..])
  }

  function EncodeWord(w: nat): (b: bytes)
    ensures |b| == 4
  {
    [(w % 0x100) as byte, (w / 0x100 % 0x100) as byte, (w / 0x1_0000 % 0x100) as byte, (w / 0x100_0000 % 0x100) as byte]
  }

  /** Section 3.3. */
  const INITIAL := Regs(0x67452301, 0xefcdab89, 0x98badcfe, 0x10325476)

  function Block(r: Regs, b: bytes): Regs
    requires |b| == 64
  {
    Compress(r, Decode(b))
  }

  lemma LessOneBlock(n: nat)
    requires n > 0 && n % 64 == 0
    ensures n >= 64 && (n - 64) % 64 == 0
  {}

  /** Section 3.4: process the message block by block. */
  function Process(r: Regs, data: bytes): Regs
    requires |data| % 64 == 0
    decreases |data|
  {
    if |data| == 0 then r
    else
      LessOneBlock(|data|);
      Process(Block(r, data[..64]), data[64..])
  }

  function Zeros(n: nat): (z: bytes)
    ensures |z| == n
  {
    seq(n, _ => 0)
  }

  /** How many bytes section 3.1 adds to a message of which rest bytes are left over. */
  function PadLength(rest: nat): (n: nat)
    requires rest < 64
    ensures n > 0 && (rest + n) % 64 == 56
  {
    if rest < 56 then 56 - rest else 120 - rest
  }

  /** Sections 3.1 and 3.2. */
  function Padding(len: nat): (p: bytes)
    ensures (len + |p|) % 64 == 0
  {
    [0x80] + Zeros(PadLength(len % 64) - 1) + LengthBytes(8 * len)
  }

  /** The length in bits, modulo 2^64, low-order word first. */
  function LengthBytes(bits: nat): (b: bytes)
    ensures |b| == 8
  {
    EncodeWord(bits % TWO_32) + EncodeWord(bits / TWO_32 % TWO_32)
  }

  /** Section 3.5. */
  function Output(r: Regs): bytes {
    EncodeWord(r.a as int) + EncodeWord(r.b as int) + EncodeWord(r.c as int) + EncodeWord(r.d as int)
  }

  function Digest(msg: bytes): bytes {
    Output(Process(INITIAL, msg + Padding(|msg|)))
  }

  lemma FourDigits(w: nat)
    requires w < TWO_32
    ensures w == w % 0x100 + 0x100 * (w / 0x100 % 0x100) + 0x1_0000 * (w / 0x1_0000 % 0x100) +
      0x100_0000 * (w / 0x100_0000 % 0x100)
  {
    var p, q := w / 0x100, w / 0x1_0000;
    assert p == q * 0x100 + p % 0x100 && q == w / 0x100_0000 * 0x100 + q % 0x100;
  }

  /** Words are written and read with their low byte first. */
  lemma WordRoundTrip(w: Word, rest: bytes)
    ensures Decode(EncodeWord(w as nat) + rest) == [w] + Decode(rest)
    ensures EncodeWord(w as nat)[0] as nat == w as nat % 0x100
  {
    FourDigits(w as nat);
    assert (EncodeWord(w as nat) + rest)[4..] == rest;
  }

  /** A digest is the four registers. */
  lemma OutputRoundTrip(r: Regs)
    ensures Decode(Output(r)) == [r.a, r.b, r.c, r.d]
  {
    hide EncodeWord;
    var a, b, c, d := EncodeWord(r.a as int), EncodeWord(r.b as int), EncodeWord(r.c as int), EncodeWord(r.d as int);
    assert Output(r) == a + (b + (c + (d + [])));
    WordRoundTrip(r.a, b + (c + (d + [])));
    WordRoundTrip(r.b, c + (d + []));
    WordRoundTrip(r.c, d + []);
    WordRoundTrip(r.d, []);
  }

  /** They start out with the bytes that section 3.3 lists. */
  lemma InitialBytes()
    ensures Output(INITIAL) == [0x01, 0x23, 0x45, 0x67, 0x89, 0xab, 0xcd, 0xef] +
      [0xfe, 0xdc, 0xba, 0x98, 0x76, 0x54, 0x32, 0x10]
  {}

  /** A one bit, as few zeros as make the length whole blocks, and the length in bits as two words, the low
      one first. */
  lemma PaddingIs(len: nat)
    ensures var p := Padding(len);
      && 9 <= |p| <= 72 && (len + |p|) % 64 == 0 && p[0] == 0x80
      && (forall i :: 1 <= i < |p| - 8 ==> p[i] == 0)
      && Decode(p[|p| - 8..]) == [(8 * len % TWO_32) as Word, (8 * len / TWO_32 % TWO_32) as Word]
  {
    hide EncodeWord;
    var p := Padding(len);
    var low, high := 8 * len % TWO_32, 8 * len / TWO_32 % TWO_32;
    assert p[|p| - 8..] == LengthBytes(8 * len) == EncodeWord(low) + (EncodeWord(high) + []);
    WordRoundTrip(low as Word, EncodeWord(high) + []);
    WordRoundTrip(high as Word, []);
  }

  // ----- blocks

  lemma {:induction false} ProcessConcat(r: Regs, a: bytes, b: bytes)
    requires |a| % 64 == 0 && |b| % 64 == 0
    ensures Process(r, a + b) == Process(Process(r, a), b)
    decreases |a|
  {
    hide Block;
    if |a| == 0 {
      assert a + b == b;
    } else {
      assert (a + b)[..64] == a[..64] && (a + b)[64..] == a[64..] + b;
      ProcessConcat(Block(r, a[..64]), a[64..], b);
    }
  }

  /** How many bytes of the message are still in the buffer. */
  function Left(msg: bytes): (n: nat)
    ensures n < 64
  {
    |msg| % 64
  }

  /** The whole blocks of a message, and what is left over. */
  function Whole(msg: bytes): (w: bytes)
    ensures |w| % 64 == 0
  {
    msg[..|msg| - |msg| % 64]
  }

  function Rest(msg: bytes): (r: bytes)
    ensures |r| == Left(msg)
  {
    msg[|msg| - |msg| % 64..]
  }

  lemma Split(msg: bytes)
    ensures Whole(msg) + Rest(msg) == msg
  {}

  lemma SplitAs(msg: bytes, w: bytes, r: bytes)
    requires msg == w + r && |w| % 64 == 0 && |r| < 64
    ensures Whole(msg) == w && Rest(msg) == r
  {}

  // ----- the bit count in two words

  lemma CountIndex(c0: nat, c1: nat, n: nat)
    requires c0 < TWO_32 && c1 < TWO_32 && c0 + TWO_32 * c1 == 8 * n % TWO_64
    ensures c0 / 8 % 64 == n % 64
    ensures c0 == 8 * n % TWO_32 && c1 == 8 * n / TWO_32 % TWO_32
  {
    var q := 8 * n / TWO_64;
    assert 8 * n == c0 + TWO_32 * c1 + TWO_64 * q;
    TwoWords(c0, c1, q);
    EighthOf(c0, n, 0x2000_0000 * c1 + 0x2000_0000_0000_0000 * q);
  }

  lemma TwoWords(c0: nat, c1: nat, q: nat)
    requires c0 < TWO_32 && c1 < TWO_32
    ensures var b := c0 + TWO_32 * c1 + TWO_64 * q; b % TWO_32 == c0 && b / TWO_32 % TWO_32 == c1
  {
    var b := c0 + TWO_32 * c1 + TWO_64 * q;
    assert b == c0 + TWO_32 * (c1 + TWO_32 * q);
    assert b / TWO_32 == c1 + TWO_32 * q;
  }

  /** The low word holds the remainder of the length by 64. */
  lemma EighthOf(c0: nat, n: nat, m: nat)
    requires 8 * n == c0 + 8 * m && m % 64 == 0
    ensures c0 / 8 % 64 == n % 64
  {
    assert c0 == 8 * (n - m) && c0 / 8 == n - m;
  }

  /** The count of Md5.Update: shifting the length and carrying by hand. */
  lemma CountAdd(c0: nat, c1: nat, n: nat, len: nat)
    requires c0 < TWO_32 && c1 < TWO_32 && c0 + TWO_32 * c1 == 8 * n % TWO_64 && len < TWO_32
    ensures var low := 8 * len % TWO_32;
      var d0 := (c0 + low) % TWO_32;
      var d1 := (c1 + (if d0 < low then 1 else 0) + len / 0x2000_0000) % TWO_32;
      d0 + TWO_32 * d1 == 8 * (n + len) % TWO_64
  {
    var low := 8 * len % TWO_32;
    var d0 := (c0 + low) % TWO_32;
    var carry := if d0 < low then 1 else 0;
    assert c0 + low == d0 + TWO_32 * carry;
    assert 8 * len == low + TWO_32 * (len / 0x2000_0000);
    var up := c1 + carry + len / 0x2000_0000;
    var q := 8 * n / TWO_64;
    assert 8 * (n + len) == d0 + TWO_32 * up + TWO_64 * q;
    ModOf(d0, up, q);
  }

  lemma ModOf(d0: nat, up: nat, q: nat)
    requires d0 < TWO_32
    ensures (d0 + TWO_32 * up + TWO_64 * q) % TWO_64 == d0 + TWO_32 * (up % TWO_32)
  {
    var v := d0 + TWO_32 * (up % TWO_32);
    assert up == up % TWO_32 + TWO_32 * (up / TWO_32);
    assert d0 + TWO_32 * up + TWO_64 * q == v + TWO_64 * (up / TWO_32 + q);
    assert 0 <= v < TWO_64;
  }

  // ----- what one update does

  lemma ProcessOne(r: Regs, b: bytes)
    requires |b| == 64
    ensures Process(r, b) == Block(r, b)
  {
    hide Block;
    assert b[..64] == b;
    assert |b[64..]| == 0;
  }

  lemma ProcessNext(r: Regs, data: bytes, from: nat, i: nat)
    requires from <= i && i + 64 <= |data| && (i - from) % 64 == 0
    ensures (i + 64 - from) % 64 == 0 && |data[from..i]| % 64 == 0
    ensures Process(r, data[from..i + 64]) == Block(Process(r, data[from..i]), data[i..i + 64])
  {
    hide Block, Process;
    assert data[from..i + 64] == data[from..i] + data[i..i + 64];
    ProcessConcat(r, data[from..i], data[i..i + 64]);
    ProcessOne(Process(r, data[from..i]), data[i..i + 64]);
  }

  /** The update does not fill the buffer. */
  lemma Buffered(m: bytes, input: bytes)
    requires Left(m) + |input| < 64
    ensures Whole(m + input) == Whole(m) && Rest(m + input) == Rest(m) + input
  {
    Split(m);
    assert m + input == Whole(m) + (Rest(m) + input);
    SplitAs(m + input, Whole(m), Rest(m) + input);
  }

  /** The update fills the buffer and then leaves the bytes from position i on. */
  lemma Absorbed(m: bytes, input: bytes, i: nat)
    requires var part := 64 - Left(m); part <= i <= |input| && (i - part) % 64 == 0 && |input| - i < 64
    ensures var part := 64 - Left(m);
      && Rest(m + input) == input[i..] && |input[part..i]| % 64 == 0
      && Process(INITIAL, Whole(m + input)) ==
        Process(Block(Process(INITIAL, Whole(m)), Rest(m) + input[..part]), input[part..i])
  {
    hide Block, Process;
    var part := 64 - Left(m);
    var w, b, mid := Whole(m), Rest(m) + input[..part], input[part..i];
    Split(m);
    Cut(m, w, Rest(m), input, part, i);
    SplitAs(m + input, w + b + mid, input[i..]);
    ProcessConcat(INITIAL, w + b, mid);
    ProcessConcat(INITIAL, w, b);
    ProcessOne(Process(INITIAL, w), b);
  }

  lemma Cut(m: bytes, w: bytes, r: bytes, input: bytes, part: nat, i: nat)
    requires m == w + r && part <= i <= |input|
    ensures m + input == (w + (r + input[..part]) + input[part..i]) + input[i..]
  {
    assert input == input[..part] + input[part..i] + input[i..];
  }

  // ----- the source

  const PADDING: bytes := [0x80] + Zeros(63)

  class Md5 {
    var state: Regs
    var count0: Word
    var count1: Word
    const buffer: array<byte>
    var digest: bytes
    var finished: bool

    /** The message so far. */
    ghost var msg: bytes

    ghost predicate Valid()
      reads this, buffer
    {
      Holds() && !finished
    }

    /** State, count and buffer belong to the message. */
    ghost predicate Holds()
      reads this, buffer
    {
      && buffer.Length == 64
      && state == Process(INITIAL, Whole(msg)) && buffer[..][..Left(msg)] == Rest(msg)
      && count0 as nat + TWO_32 * count1 as nat == 8 * |msg| % TWO_64
    }

    /** MD5::reset */
    constructor ()
      ensures Valid() && fresh(buffer) && msg == []
    {
      hide Process, Whole, Rest;
      finished := false;
      count0, count1 := 0, 0;
      state := INITIAL;
      buffer := new byte[64];
      digest := [];
      msg := [];
      new;
      EmptyMessage();
    }

    method TransformBlock(block: bytes)
      requires |block| == 64
      modifies this`state
      ensures state == Block(old(state), block)
    {
      state := Transform(state, Decode(block));
    }

    /** Counting the bits of an update. */
    method Count(length: nat)
      requires length < TWO_32 && Holds()
      modifies this`count0, this`count1
      ensures count0 as nat + TWO_32 * count1 as nat == 8 * (|msg| + length) % TWO_64
    {
      hide Process, Whole, Rest, Left;
      CountAdd(count0 as nat, count1 as nat, |msg|, length);
      var low := 8 * length % TWO_32;
      count0 := ((count0 as nat + low) % TWO_32) as Word;
      var carry := if count0 as nat < low then 1 else 0;
      count1 := ((count1 as nat + carry + length / 0x2000_0000) % TWO_32) as Word;
    }

    /** memcpy into the buffer. */
    method CopyIn(at: nat, data: bytes)
      requires at + |data| <= buffer.Length
      modifies buffer
      ensures buffer[..] == old(buffer[..])[..at] + data + old(buffer[..])[at + |data|..]
    {
      forall j | 0 <= j < |data| {
        buffer[at + j] := data[j];
      }
    }

    /** Transform the filled up buffer, and then as many blocks of the input as possible. */
    method ProcessBlocks(input: bytes, index: nat) returns (i: nat)
      requires buffer.Length == 64 && index < 64 && 64 - index <= |input|
      modifies this`state, buffer
      ensures var part := 64 - index;
        && part <= i <= |input| && (i - part) % 64 == 0 && |input| - i < 64 && |input[part..i]| % 64 == 0
        && buffer[..] == old(buffer[..])[..index] + input[..part]
        && state == Process(Block(old(state), buffer[..]), input[part..i])
    {
      hide Block, Process;
      var partLen := 64 - index;
      CopyIn(index, input[..partLen]);
      TransformBlock(buffer[..]);
      i := partLen;
      ghost var s, b := state, buffer[..];
      NothingProcessed(s, input, partLen);
      while i + 63 < |input|
        invariant partLen <= i <= |input| && (i - partLen) % 64 == 0 && |input[partLen..i]| % 64 == 0
        invariant state == Process(s, input[partLen..i]) && buffer[..] == b
        modifies this`state
      {
        ProcessNext(s, input, partLen, i);
        TransformBlock(input[i..i + 64]);
        i := i + 64;
      }
    }

    /** MD5::update; also what becomes of the bytes of the buffer that are not in use. */
    method Update(input: bytes)
      requires Holds() && |input| + 63 < TWO_32
      modifies this, buffer
      ensures Valid() && msg == old(msg) + input
      ensures buffer[..] == AfterUpdate(old(buffer[..]), Left(old(msg)), input)
    {
      hide Block, Process, Whole, Rest, Left, AfterUpdate, INITIAL;
      finished := false;
      BufferIndex();
      var index := count0 as nat / 8 % 64;
      Count(|input|);
      var partLen := 64 - index;
      var i := 0;
      ghost var was := buffer[..];
      if |input| >= partLen {
        i := ProcessBlocks(input, index);
        Absorbed(msg, input, i);
        AfterFull(was, index, input, i);
        KeepFront(buffer[..], input[i..]);
        index := 0;
      } else {
        Buffered(msg, input);
        AfterPartial(was, index, input);
        TakeAll(input);
      }
      CopyIn(index, input[i..]);
      msg := msg + input;
    }

    /** MD5::final */
    method Final()
      requires Holds()
      modifies this, buffer
      ensures digest == Digest(old(msg))
      ensures Valid() && msg == AfterDigest(old(msg))
    {
      hide Block, Process, Whole, Rest, Left, AfterUpdate, INITIAL, AfterDigest, Padding, Output, LengthBytes,
           EncodeWord, PadLength, PADDING;
      var oldState, old0, old1 := state, count0, count1;
      ghost var m, was := msg, buffer[..];
      var bits := EncodeWord(count0 as nat) + EncodeWord(count1 as nat);
      BufferIndex();
      BitsAre(count0 as nat, count1 as nat, |m|);
      LeftMod(m);
      var index := count0 as nat / 8 % 64;
      var padLen := if index < 56 then 56 - index else 120 - index;
      PadOf(|m|);
      Update(PADDING[..padLen]);
      Update(bits);
      FinalState(m, PADDING[..padLen], bits);
      FinalBuffer(was, m, PADDING[..padLen]);
      digest := Output(state);
      state, count0, count1 := oldState, old0, old1;
      msg := AfterDigest(m);
      AfterDigestParts(m);
    }

    /** MD5::digest; finished never survives a call, since finishing updates. */
    method GetDigest() returns (d: bytes)
      requires Valid()
      modifies this, buffer
      ensures d == Digest(old(msg))
      ensures Valid() && msg == AfterDigest(old(msg))
    {
      hide Block, Process, Whole, Rest, Left, AfterDigest, Digest;
      if !finished {
        finished := true;
        Final();
      }
      d := digest;
    }

    lemma BufferIndex()
      requires Holds()
      ensures count0 as nat / 8 % 64 == Left(msg) && buffer[..][..Left(msg)] == Rest(msg)
    {
      CountIndex(count0 as nat, count1 as nat, |msg|);
    }
  }

  /** The buffer after an update: the input follows what is in use, starting over after 64 bytes. */
  function AfterUpdate(was: bytes, index: nat, input: bytes): (b: bytes)
    requires |was| == 64 && index < 64
    ensures |b| == 64
  {
    if index + |input| < 64 then was[..index] + input + was[index + |input|..]
    else
      var m := (index + |input|) % 64;
      input[|input| - m..] + (was[..index] + input[..64 - index])[m..]
  }

  lemma AfterFull(was: bytes, index: nat, input: bytes, i: nat)
    requires |was| == 64 && index < 64
    requires var part := 64 - index; part <= i <= |input| && (i - part) % 64 == 0 && |input| - i < 64
    ensures AfterUpdate(was, index, input) == input[i..] + (was[..index] + input[..64 - index])[|input| - i..]
  {
    assert (index + |input|) % 64 == |input| - i;
  }

  lemma AfterPartial(was: bytes, index: nat, input: bytes)
    requires |was| == 64 && index + |input| < 64
    ensures AfterUpdate(was, index, input) == was[..index] + input + was[index + |input|..]
    ensures AfterUpdate(was, index, input)[..index + |input|] == was[..index] + input
  {}

  lemma KeepFront(b: bytes, data: bytes)
    requires |data| <= |b|
    ensures b[..0] + data + b[0 + |data|..] == data + b[|data|..]
    ensures (data + b[|data|..])[..|data|] == data
  {}

  lemma TakeAll(data: bytes)
    ensures data[0..] == data
  {}

  lemma EmptyMessage()
    ensures Whole([]) == [] && Rest([]) == [] && Process(INITIAL, []) == INITIAL
  {}

  lemma NothingProcessed(r: Regs, data: bytes, from: nat)
    requires from <= |data|
    ensures |data[from..from]| % 64 == 0 && Process(r, data[from..from]) == r
  {}

  // ----- the digest

  /** What the buffer holds after a digest if the padding did not fit behind the bytes in it. */
  function Garbage(len: nat): (g: bytes)
    ensures |g| == 64
  {
    Zeros(56) + LengthBytes(8 * len)
  }

  /** The message that later updates continue. */
  function AfterDigest(msg: bytes): bytes {
    if Left(msg) < 56 then msg else Whole(msg) + Garbage(|msg|)[..Left(msg)]
  }

  /** The digest leaves the stream as it was exactly if at most 55 bytes are in the buffer, or they are
      what the digest leaves there anyway. */
  lemma DigestKeeps(msg: bytes)
    ensures AfterDigest(msg) == msg <==> Left(msg) < 56 || Rest(msg) == Garbage(|msg|)[..Left(msg)]
  {
    hide Garbage;
    Split(msg);
    var g := Garbage(|msg|)[..Left(msg)];
    if Left(msg) >= 56 && Whole(msg) + g == msg {
      assert (Whole(msg) + g)[|msg| - Left(msg)..] == g;
    }
  }

  /** For example, 56 bytes that do not start with a zero are lost. */
  lemma DigestSpoils(msg: bytes)
    requires 56 <= |msg| < 64 && msg[0] != 0
    ensures AfterDigest(msg) != msg
  {
    assert Rest(msg) == msg && Garbage(|msg|)[0] == 0;
    DigestKeeps(msg);
  }

  lemma PadOf(len: nat)
    ensures var pad := PADDING[..PadLength(len % 64)];
      Padding(len) == pad + LengthBytes(8 * len) && |pad| == PadLength(len % 64)
  {
    var n := PadLength(len % 64);
    assert PADDING[..n] == [0x80] + Zeros(n - 1);
  }

  lemma LeftMod(m: bytes)
    ensures Left(m) == |m| % 64
    ensures PadLength(|m| % 64) == if |m| % 64 < 56 then 56 - |m| % 64 else 120 - |m| % 64
    ensures |PADDING| == 64
  {}

  lemma BitsAre(c0: nat, c1: nat, n: nat)
    requires c0 < TWO_32 && c1 < TWO_32 && c0 + TWO_32 * c1 == 8 * n % TWO_64
    ensures EncodeWord(c0) + EncodeWord(c1) == LengthBytes(8 * n)
  {
    hide EncodeWord;
    CountIndex(c0, c1, n);
  }

  /** The padded message consists of whole blocks. */
  lemma FinalState(m: bytes, pad: bytes, bits: bytes)
    requires Padding(|m|) == pad + bits
    ensures Whole(m + pad + bits) == m + Padding(|m|) && (|m| + |Padding(|m|)|) % 64 == 0
  {
    hide Padding;
    assert m + pad + bits == m + Padding(|m|);
    SplitAs(m + pad + bits, m + Padding(|m|), []);
  }

  lemma FinalBuffer(was: bytes, m: bytes, pad: bytes)
    requires |was| == 64 && pad == PADDING[..PadLength(|m| % 64)]
    ensures var b := AfterUpdate(AfterUpdate(was, Left(m), pad), Left(m + pad), LengthBytes(8 * |m|));
      if Left(m) < 56 then b[..Left(m)] == was[..Left(m)] else b == Garbage(|m|)
  {
    hide LengthBytes;
    var i := Left(m);
    var bits := LengthBytes(8 * |m|);
    assert Left(m + pad) == 56;
    var c := AfterUpdate(was, i, pad);
    var b := AfterUpdate(c, 56, bits);
    assert b == c[..56] + bits;
    if i >= 56 {
      ZeroTail(pad, 64 - i);
      assert c[..56] == pad[64 - i..];
    }
  }

  lemma ZeroTail(pad: bytes, from: nat)
    requires 1 <= from && from + 56 <= 64 && pad == PADDING[..from + 56]
    ensures pad[from..] == Zeros(56)
  {}

  lemma AfterDigestParts(m: bytes)
    ensures var e := AfterDigest(m);
      |e| == |m| && Left(e) == Left(m) && Whole(e) == Whole(m) && Rest(e) == if Left(m) < 56 then Rest(m)
        else Garbage(|m|)[..Left(m)]
  {
    hide Garbage;
    Split(m);
    if Left(m) >= 56 {
      SplitAs(AfterDigest(m), Whole(m), Garbage(|m|)[..Left(m)]);
    }
  }

  // ----- streaming

  /** However a message is cut into updates, its digest is that of RFC 1321. */
  method DigestOfPieces(pieces: seq<bytes>) returns (d: bytes)
    requires forall i :: 0 <= i < |pieces| ==> |pieces[i]| + 63 < TWO_32
    ensures d == Digest(Flatten(pieces))
  {
    hide Digest, AfterUpdate, Process, Flatten;
    var md5 := new Md5();
    NoBytes(pieces);
    for i := 0 to |pieces|
      invariant md5.Valid() && fresh(md5) && fresh(md5.buffer) && md5.msg == Flatten(pieces[..i])
    {
      FlattenStep(pieces, i);
      md5.Update(pieces[i]);
    }
    AllParts(pieces);
    d := md5.GetDigest();
  }
}
