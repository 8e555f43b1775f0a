/** event_tagging.c: records are appended to evbuffers in which no space was reserved and whose end is
    not frozen, and taken off any evbuffer whose start is not frozen.  Memory is granted, and sizes
    stay far from overflowing. */
module EventTagging {
  import opened Base128
  import opened Bytes
  import opened CInts
  import EvbufferMove
  import EvbufferPullup
  import opened EvbufferRead
  import opened EvbufferWrite
  import opened Evbuffers
  import opened Options
  import opened TagWire

  /** More than any header, less than any limit of the buffer. */
  const ROOM: nat := 0x1_0000_0000_0000

  /** Data can be taken off. */
  ghost predicate Open(buf: Evbuffer)
    reads buf, buf.Repr
  {
    buf.Valid() && !buf.freezeStart
  }

  /** Data can be added, and no space was reserved. */
  ghost predicate Writable(buf: Evbuffer)
    reads buf, buf.Repr
  {
    buf.Tidy() && !buf.freezeEnd
  }

  // ----- access to the buffer

  /** evbuffer_add */
  method Append(buf: Evbuffer, data: bytes, malloc: Malloc)
    requires Writable(buf) && NeverFails(malloc) && |data| <= ROOM && buf.totalLen <= SSIZE_MAX
    modifies buf, buf.Repr
    ensures Writable(buf) && fresh(buf.Repr - old(buf.Repr))
    ensures buf.Contents() == old(buf.Contents()) + data
  {
    hide Evbuffer.Body, Flatten, ExactAt, NoEmptyPart, AddSafe;
    var _, _ := Add(buf, data, malloc);
  }

  /** evbuffer_drain */
  method Discard(buf: Evbuffer, n: nat)
    requires Open(buf)
    modifies buf, buf.Repr
    ensures Open(buf) && fresh(buf.Repr - old(buf.Repr))
    ensures buf.Contents() == if n <= |old(buf.Contents())| then old(buf.Contents())[n..] else []
  {
    hide Evbuffer.Body, Flatten, ExactAt, NoEmptyPart;
    var _ := Drain(buf, n);
  }

  /** evbuffer_pullup, and what is read through the pointer it returns. */
  method Front(buf: Evbuffer, n: nat, malloc: Malloc) returns (ok: bool, data: bytes)
    requires Open(buf) && n <= ROOM
    modifies buf, buf.Repr
    ensures Open(buf) && fresh(buf.Repr - old(buf.Repr))
    ensures buf.Contents() == old(buf.Contents())
    ensures ok ==> 0 < n <= |buf.Contents()|
    ensures NeverFails(malloc) && 0 < n <= |buf.Contents()| ==> ok
    ensures data == if ok then buf.Contents()[..n] else []
  {
    hide Evbuffer.Body, Flatten, ExactAt, NoEmptyPart;
    data := [];
    ok := EvbufferPullup.Pullup(buf, n, malloc);
    if ok {
      buf.Front();
      data := EvbufferPullup.Peek(buf, n);
    }
  }

  // ----- encoding

  lemma NibbleSet(s: bytes, t: bytes, i: nat)
    requires |s| == |t| && i / 2 < |s|
    requires forall j :: 0 <= j < |s| && j != i / 2 ==> t[j] == s[j]
    requires t[i / 2] as nat == if i % 2 == 1 then s[i / 2] as nat / 16 * 16 + t[i / 2] as nat % 16
      else s[i / 2] as nat % 16 + t[i / 2] as nat / 16 * 16
    ensures forall j {:trigger NibbleAt(t, j)} :: 0 <= j < 2 * |s| && j != i ==> NibbleAt(t, j) == NibbleAt(s, j)
  {}

  /** Put a nibble into the array. */
  method SetNibble(data: array<byte>, i: nat, v: nat)
    requires i / 2 < data.Length && v < 16
    modifies data
    ensures NibbleAt(data[..], i) == v
    ensures forall j {:trigger NibbleAt(data[..], j)} :: 0 <= j < 2 * data.Length && j != i ==>
      NibbleAt(data[..], j) == NibbleAt(old(data[..]), j)
  {
    var b := data[i / 2] as nat;
    data[i / 2] := (if i % 2 == 1 then b / 16 * 16 + v else b % 16 + 16 * v) as byte;
    NibbleSet(old(data[..]), data[..], i);
  }

  /** The nibbles before off are those of the number, the others are still zero. */
  ghost predicate Filled(s: bytes, number: nat, off: nat) {
    forall j {:trigger NibbleAt(s, j)} :: 1 <= j < 2 * |s| ==>
      NibbleAt(s, j) == if j < off then Nibble(number, j - 1) else 0
  }

  lemma NothingFilled(s: bytes, number: nat)
    requires forall j :: 0 <= j < |s| ==> s[j] == 0
    ensures Filled(s, number, 1)
  {}

  lemma FillNext(s: bytes, t: bytes, number: nat, off: nat)
    requires Filled(s, number, off) && 1 <= off < 2 * |s| && |t| == |s| && NibbleAt(t, off) == Shr(number, off - 1) % 16
    requires forall j {:trigger NibbleAt(t, j)} :: 0 <= j < 2 * |s| && j != off ==> NibbleAt(t, j) == NibbleAt(s, j)
    ensures Filled(t, number, off + 1)
  {}

  lemma FillCount(s: bytes, t: bytes, number: nat, off: nat)
    requires Filled(s, number, off) && |s| > 0 && |t| == |s|
    requires forall j {:trigger NibbleAt(t, j)} :: 0 <= j < 2 * |s| && j != 0 ==> NibbleAt(t, j) == NibbleAt(s, j)
    ensures Filled(t, number, off)
  {}

  /** ENCODE_INT_INTERNAL into an array of size + 1 bytes. */
  method EncodeInt(data: array<byte>, number: nat) returns (len: nat)
    requires 0 < data.Length <= 9 && number < Pow16(2 * (data.Length - 1))
    modifies data
    ensures len <= data.Length && data[..len] == IntBytes(number)
  {
    hide Filled, NibbleAt, Nibbles, IntBytes, Pow16;
    forall i | 0 <= i < data.Length {
      data[i] := 0;
    }
    var off, nibbles := 1, 0;
    var n := number;
    FitsNibbles(number, data.Length);
    NothingFilled(data[..], number);
    while n > 0
      invariant 1 <= off <= Nibbles(number) + 1 && n == Shr(number, off - 1)
      invariant Filled(data[..], number, off)
      decreases n
    {
      ShrBeyond(number, off - 1);
      ghost var was := data[..];
      SetNibble(data, off, n % 16);
      FillNext(was, data[..], number, off);
      n := n / 16;
      off := off + 1;
    }
    ShrBeyond(number, off - 1);
    if off > 2 {
      nibbles := off - 2;
    }
    ghost var was := data[..];
    SetNibble(data, 0, nibbles % 16);
    FillCount(was, data[..], number, off);
    len := (off + 1) / 2;
    Encoded(data[..], number, len);
    assert data[..][..len] == data[..len];
  }

  lemma FitsNibbles(number: nat, length: nat)
    requires 0 < length && number < Pow16(2 * (length - 1))
    ensures Nibbles(number) <= 2 * (length - 1)
  {
    ShrOfPow(number, 2 * (length - 1), 2 * (length - 1));
    ShrBeyond(number, 2 * (length - 1));
  }

  lemma Encoded(s: bytes, number: nat, len: nat)
    requires len == IntLength(number) && len <= |s|
    requires NibbleAt(s, 0) == CountNibble(number) % 16
    requires Filled(s, number, Nibbles(number) + 1)
    ensures s[..len] == IntBytes(number)
  {
    var b := s[..len];
    assert NibbleAt(b, 0) == NibbleAt(s, 0);
    forall j {:trigger NibbleAt(b, j)} | 1 <= j < 2 * len
      ensures NibbleAt(b, j) == Nibble(number, j - 1)
    {
      assert NibbleAt(b, j) == NibbleAt(s, j);
      ShrBeyond(number, j - 1);
    }
    IsIntUnique(b, number);
  }

  /** evtag_encode_tag */
  method EncodeTag(buf: Evbuffer, tag: nat, malloc: Malloc) returns (n: nat)
    requires Writable(buf) && NeverFails(malloc) && buf.totalLen <= SSIZE_MAX && tag < TWO_32
    modifies buf, buf.Repr
    ensures Writable(buf) && fresh(buf.Repr - old(buf.Repr))
    ensures buf.Contents() == old(buf.Contents()) + SevenBits(tag) && n == |SevenBits(tag)| <= 5
  {
    hide Evbuffer.Body, Flatten, ExactAt, NoEmptyPart, Evbuffer.Shape;
    var data := new byte[5];
    var t := tag;
    n := 0;
    TagRoundTrip(tag, []);
    assert data[..0] + SevenBits(tag) == SevenBits(tag);
    while true
      invariant n < 5 && data[..n] + SevenBits(t) == SevenBits(tag)
      modifies data
      decreases t
    {
      var lower := t % 128;
      ghost var was := t;
      t := t / 128;
      if t != 0 {
        lower := lower + 128;
      }
      data[n] := lower as byte;
      n := n + 1;
      SevenBitsStep(data[..n - 1], data[..n], was, lower);
      if t == 0 {
        break;
      }
    }
    Append(buf, data[..n], malloc);
  }

  // ----- decoding

  lemma CombineStep(s: bytes, count: nat, number: nat)
    requires count < |s| && count <= 4
    ensures var r := DecodeTagAt(s[count..], 7 * count);
      var v := s[count] as nat % 128;
      var known := number + Shifted(v, count);
      if count == 4 && v > 15 then r.None?
      else if s[count] < 128 then Combine(number, count, r) == Some(Decoded(known, count + 1))
      else Combine(number, count, r) == Combine(known, count + 1, DecodeTagAt(s[count + 1..], 7 * (count + 1)))
  {
    hide Shifted;
    assert s[count..][1..] == s[count + 1..];
    var rest := DecodeTagAt(s[count + 1..], 7 * (count + 1));
    CombineNext(number, count, s[count] as nat % 128, rest);
  }

  /** decode_tag_internal */
  method DecodeTagInternal(buf: Evbuffer, doDrain: bool, malloc: Malloc) returns (r: int, tag: nat)
    requires Open(buf)
    modifies buf, buf.Repr
    ensures Open(buf) && fresh(buf.Repr - old(buf.Repr))
    ensures var d := DecodeTag(old(buf.Contents()));
      if d.None? || (!NeverFails(malloc) && r == -1) then r == -1 && buf.Contents() == old(buf.Contents())
      else
        && r == d.value.len && tag == d.value.value && tag < TWO_32 && r <= 5 && r <= |old(buf.Contents())|
        && buf.Contents() == if doDrain then old(buf.Contents())[r..] else old(buf.Contents())
  {
    hide Evbuffer.Body, Flatten, ExactAt, NoEmptyPart, Evbuffer.Shape, DecodeTagAt, Combine, Shifted;
    var len := buf.totalLen;
    ghost var all := buf.Contents();
    buf.TotalIs();
    tag := 0;
    var ok, data := Front(buf, if len < 5 then len else 5, malloc);
    if !ok {
      EmptyTag(all);
      return -1, 0;
    }
    TagOfPrefix(all, |data|);
    var count, done := 0, false;
    CombineStart(DecodeTag(data));
    assert data[0..] == data;
    while count < |data|
      invariant count <= |data| <= 5
      invariant DecodeTag(data) == Combine(tag, count, DecodeTagAt(data[count..], 7 * count))
      modifies {}
    {
      var lower := data[count] as nat;
      CombineStep(data, count, tag);
      if count == 4 && lower % 128 > 15 {
        CombineNone(tag, count, DecodeTagAt(data[count..], 7 * count));
        return -1, tag;
      }
      tag := tag + Shifted(lower % 128, count);
      count := count + 1;
      if lower < 128 {
        done := true;
        break;
      }
    }
    if !done {
      EndOfTag(data);
      CombineNone(tag, count, DecodeTagAt(data[count..], 7 * count));
      return -1, tag;
    }
    TagFits(data, 0);
    if doDrain {
      Discard(buf, count);
    }
    r := count;
  }

  lemma EmptyTag(s: bytes)
    ensures |s| == 0 ==> DecodeTag(s).None?
  {}

  lemma TagOfPrefix(s: bytes, n: nat)
    requires n == if |s| < 5 then |s| else 5
    ensures DecodeTag(s[..n]) == DecodeTag(s)
  {
    if |s| < 5 {
      assert s[..n] == s;
    } else {
      TagPrefix(s, 0, n);
    }
  }

  lemma EndOfTag(s: bytes)
    ensures DecodeTagAt(s[|s|..], 7 * |s|).None?
  {}

  /** DECODE_INT_INTERNAL: an integer at the offset, which stays in the buffer.  It tests what
      evbuffer_pullup returned only after adding the offset, so that an offset needs memory to be granted. */
  method DecodeIntInternal(buf: Evbuffer, offset: nat, maxNibbles: nat, malloc: Malloc) returns (r: int, number: nat)
    requires Open(buf) && offset <= ROOM - 16 && maxNibbles <= 16 && (offset == 0 || NeverFails(malloc))
    modifies buf, buf.Repr
    ensures Open(buf) && fresh(buf.Repr - old(buf.Repr)) && buf.Contents() == old(buf.Contents())
    ensures var d := if offset <= |buf.Contents()| then DecodeInt(buf.Contents()[offset..], maxNibbles) else None;
      if d.None? || (!NeverFails(malloc) && r == -1) then r == -1
      else r == d.value.len && number == d.value.value && number < Pow16(maxNibbles) && offset + r <= |buf.Contents()|
  {
    hide Evbuffer.Body, Flatten, ExactAt, NoEmptyPart, Evbuffer.Shape, Number, Pow16;
    number := 0;
    buf.TotalIs();
    ghost var s := buf.Contents();
    if buf.totalLen <= offset {
      return -1, 0;
    }
    var ok, data := Front(buf, offset + 1, malloc);
    if !ok {
      return -1, 0;
    }
    SliceFrom(s, offset, offset + 1, 0);
    buf.TotalIs();
    var nibbles := data[offset] as nat / 16 + 1;
    if nibbles > maxNibbles || nibbles / 2 + 1 > buf.totalLen - offset {
      return -1, 0;
    }
    var len := nibbles / 2 + 1;
    ok, data := Front(buf, offset + len, malloc);
    if !ok {
      return -1, 0;
    }
    number := ReadNumber(data[offset..], nibbles, maxNibbles);
    PrefixFrom(s, offset, len);
    NumberPrefix(data[offset..], s[offset..], nibbles, 0);
    return len, number;
  }

  lemma SliceFrom(s: bytes, offset: nat, end: nat, i: nat)
    requires offset + i < end <= |s|
    ensures s[..end][offset + i] == s[offset..][i]
  {}

  lemma PrefixFrom(s: bytes, offset: nat, len: nat)
    requires offset + len <= |s|
    ensures |s[..offset + len][offset..]| == len && s[..offset + len][offset..] <= s[offset..]
  {}

  /** The loop of DECODE_INT_INTERNAL, in the width of the number. */
  method ReadNumber(data: bytes, n: nat, maxNibbles: nat) returns (number: nat)
    requires n / 2 < |data| && n <= maxNibbles
    ensures number == Number(data, n, 0) < Pow16(maxNibbles)
  {
    hide Pow16;
    number := 0;
    var nibbles: nat := n;
    while nibbles > 0
      invariant nibbles <= n && number == Number(data, n, nibbles)
      decreases nibbles
    {
      NumberBound(data, n, nibbles - 1);
      PowMono(n - (nibbles - 1), maxNibbles);
      Fits(number, NibbleAt(data, nibbles), Pow16(maxNibbles));
      number := 16 * number % Pow16(maxNibbles);
      number := number + if nibbles % 2 == 1 then data[nibbles / 2] as nat % 16 else data[nibbles / 2] as nat / 16;
      nibbles := nibbles - 1;
    }
    NumberBound(data, n, 0);
    PowMono(n, maxNibbles);
  }

  lemma Fits(number: nat, v: nat, p: nat)
    requires 16 * number + v < p
    ensures 16 * number % p == 16 * number
  {}

  // ----- marshalling

  /** evtag_encode_int for sizes 4 and 8 of the number. */
  method EncodeIntTo(buf: Evbuffer, number: nat, size: nat, malloc: Malloc)
    requires Writable(buf) && NeverFails(malloc) && buf.totalLen <= SSIZE_MAX && (size == 4 || size == 8)
    requires number < Pow16(2 * size)
    modifies buf, buf.Repr
    ensures Writable(buf) && fresh(buf.Repr - old(buf.Repr))
    ensures buf.Contents() == old(buf.Contents()) + IntBytes(number)
  {
    hide Evbuffer.Body, Flatten, ExactAt, NoEmptyPart, Evbuffer.Shape, Pow16;
    var data := new byte[size + 1];
    var len := EncodeInt(data, number);
    Append(buf, data[..len], malloc);
  }

  /** evtag_marshal */
  method Marshal(buf: Evbuffer, tag: nat, data: bytes, malloc: Malloc)
    requires Writable(buf) && NeverFails(malloc) && buf.totalLen + |data| <= SSIZE_MAX - ROOM && tag < TWO_32
    requires |data| < TWO_32
    modifies buf, buf.Repr
    ensures Writable(buf) && fresh(buf.Repr - old(buf.Repr))
    ensures buf.Contents() == old(buf.Contents()) + Record(tag, data)
  {
    hide Evbuffer.Body, Flatten, ExactAt, NoEmptyPart, Evbuffer.Shape, SevenBits, IntBytes;
    buf.TotalIs();
    ghost var s := buf.Contents();
    var n := EncodeTag(buf, tag, malloc);
    buf.TotalIs();
    Ones(8);
    EncodeIntTo(buf, |data|, 4, malloc);
    buf.TotalIs();
    RoundTrip32(|data|, []);
    Append(buf, data, malloc);
    Assoc(s, SevenBits(tag), IntBytes(|data|));
    Assoc(s, SevenBits(tag) + IntBytes(|data|), data);
    Assoc(SevenBits(tag), IntBytes(|data|), data);
  }

  /** evtag_marshal_int and evtag_marshal_int64 */
  method MarshalInt(buf: Evbuffer, tag: nat, number: nat, size: nat, malloc: Malloc)
    requires Writable(buf) && NeverFails(malloc) && buf.totalLen <= SSIZE_MAX - ROOM - 9 && tag < TWO_32
    requires (size == 4 || size == 8) && number < Pow16(2 * size)
    modifies buf, buf.Repr
    ensures Writable(buf) && fresh(buf.Repr - old(buf.Repr))
    ensures buf.Contents() == old(buf.Contents()) + Record(tag, IntBytes(number))
  {
    hide Evbuffer.Body, Flatten, ExactAt, NoEmptyPart, Evbuffer.Shape, Pow16, Record;
    var data := new byte[size + 1];
    var len := EncodeInt(data, number);
    Marshal(buf, tag, data[..len], malloc);
  }

  /** evtag_marshal_timeval; each field is cut to 32 bits. */
  method MarshalTimeval(buf: Evbuffer, tag: nat, sec: int, usec: int, malloc: Malloc)
    requires Writable(buf) && NeverFails(malloc) && buf.totalLen <= SSIZE_MAX - ROOM - 10 && tag < TWO_32
    modifies buf, buf.Repr
    ensures Writable(buf) && fresh(buf.Repr - old(buf.Repr))
    ensures buf.Contents() == old(buf.Contents()) + Record(tag, IntBytes(sec % TWO_32) + IntBytes(usec % TWO_32))
  {
    hide Evbuffer.Body, Flatten, ExactAt, NoEmptyPart, Evbuffer.Shape, Record, Pow16;
    Ones(8);
    var data, data2 := new byte[5], new byte[5];
    var len := EncodeInt(data, sec % TWO_32);
    var len2 := EncodeInt(data2, usec % TWO_32);
    Marshal(buf, tag, data[..len] + data2[..len2], malloc);
  }

  // ----- unmarshalling

  /** A call that needed memory and did not get it fails, and has taken off no more than a beginning. */
  ghost predicate Refused(malloc: Malloc, r: int, after: bytes, before: bytes) {
    !NeverFails(malloc) && r == -1 && SuffixOf(after, before)
  }

  /** evtag_decode_int and evtag_decode_int64 */
  method DecodeIntFrom(buf: Evbuffer, maxNibbles: nat, malloc: Malloc) returns (r: int, number: nat)
    requires Open(buf) && maxNibbles <= 16
    modifies buf, buf.Repr
    ensures Open(buf) && fresh(buf.Repr - old(buf.Repr))
    ensures var s := old(buf.Contents());
      var d := DecodeInt(s, maxNibbles);
      if d.None? || (!NeverFails(malloc) && r == -1) then r == -1 && buf.Contents() == s
      else r == 0 && number == d.value.value && buf.Contents() == s[d.value.len..]
  {
    hide Evbuffer.Body, Flatten, ExactAt, NoEmptyPart, Evbuffer.Shape, DecodeInt;
    ghost var s := buf.Contents();
    assert s[0..] == s;
    r, number := DecodeIntInternal(buf, 0, maxNibbles, malloc);
    if r != -1 {
      Discard(buf, r);
      r := 0;
    }
  }

  /** evtag_peek_length; length is a 32-bit number. */
  method PeekLength(buf: Evbuffer, malloc: Malloc) returns (r: int, length: nat)
    requires Open(buf) && NeverFails(malloc)
    modifies buf, buf.Repr
    ensures Open(buf) && fresh(buf.Repr - old(buf.Repr)) && buf.Contents() == old(buf.Contents())
    ensures var h := DecodeHead(buf.Contents());
      if h.None? then r == -1 else r == 0 && length == (h.value.headLen + h.value.dataLen) % TWO_32
  {
    hide Evbuffer.Body, Flatten, ExactAt, NoEmptyPart, Evbuffer.Shape, DecodeInt, DecodeTag;
    length := 0;
    var len, _ := DecodeTagInternal(buf, false, malloc);
    if len == -1 {
      return -1, 0;
    }
    var res;
    res, length := DecodeIntInternal(buf, len, 8, malloc);
    if res == -1 {
      return -1, length;
    }
    return 0, (length + res + len) % TWO_32;
  }

  /** evtag_payload_length */
  method PayloadLength(buf: Evbuffer, malloc: Malloc) returns (r: int, length: nat)
    requires Open(buf) && NeverFails(malloc)
    modifies buf, buf.Repr
    ensures Open(buf) && fresh(buf.Repr - old(buf.Repr)) && buf.Contents() == old(buf.Contents())
    ensures var h := DecodeHead(buf.Contents());
      if h.None? then r == -1 else r == 0 && length == h.value.dataLen
  {
    hide Evbuffer.Body, Flatten, ExactAt, NoEmptyPart, Evbuffer.Shape, DecodeInt, DecodeTag;
    length := 0;
    var len, _ := DecodeTagInternal(buf, false, malloc);
    if len == -1 {
      return -1, 0;
    }
    r, length := DecodeIntInternal(buf, len, 8, malloc);
    if r != -1 {
      r := 0;
    }
  }

  /** evtag_unmarshal_header.  The header is gone even when the data is not all there.  The length of the
      data is converted to int. */
  method UnmarshalHeader(buf: Evbuffer, malloc: Malloc) returns (r: int, tag: nat)
    requires Open(buf)
    modifies buf, buf.Repr
    ensures Open(buf) && fresh(buf.Repr - old(buf.Repr))
    ensures var s := old(buf.Contents());
      var h := DecodeHead(s);
      || Refused(malloc, r, buf.Contents(), s)
      || if h.None? then r == -1 && SuffixOf(buf.Contents(), s)
         else
           && buf.Contents() == s[h.value.headLen..] && tag == h.value.tag
           && r == if h.value.dataLen <= |buf.Contents()| then AsInt(h.value.dataLen) else -1
  {
    hide Evbuffer.Body, Flatten, ExactAt, NoEmptyPart, Evbuffer.Shape, DecodeInt, DecodeTag, AsInt, SuffixOf;
    ghost var s := buf.Contents();
    var n, len;
    n, tag := DecodeTagInternal(buf, true, malloc);
    Suffixes(s);
    if n == -1 {
      return -1, tag;
    }
    SuffixTwice(s, n);
    var ok;
    ok, len := DecodeIntFrom(buf, 8, malloc);
    buf.TotalIs();
    if ok == -1 {
      return -1, tag;
    }
    if buf.totalLen < len {
      return -1, tag;
    }
    r := AsInt(len);
  }

  ghost predicate SuffixOf(a: bytes, s: bytes) {
    exists n: nat :: n <= |s| && a == s[n..]
  }

  lemma Suffixes(s: bytes)
    ensures SuffixOf(s, s)
    ensures forall n: nat :: n <= |s| ==> SuffixOf(s[n..], s)
  {
    assert s[0..] == s;
  }

  lemma SuffixTwice(s: bytes, n: nat)
    requires n <= |s|
    ensures forall m: nat :: m <= |s| - n ==> s[n..][m..] == s[n + m..]
  {}

  /** What evbuffer_drain leaves of what follows a header, when the length of the data was converted to
      int: nothing, if that made it negative.  A length of 2^32 - 1 looks like an error and drains nothing. */
  function AfterData(body: bytes, dataLen: nat): bytes
    requires dataLen <= |body|
  {
    if AsInt(dataLen) == -1 then body else if AsInt(dataLen) < 0 then [] else body[dataLen..]
  }

  /** What evtag_consume returns and leaves. */
  ghost function Consumed(s: bytes): (int, bytes)
    requires DecodeHead(s).Some?
  {
    var h := DecodeHead(s).value;
    var body := s[h.headLen..];
    if h.dataLen > |body| then (-1, body)
    else
      HeadBound(s);
      (if AsInt(h.dataLen) == -1 then -1 else 0, AfterData(body, h.dataLen))
  }

  /** evtag_consume */
  method Consume(buf: Evbuffer, malloc: Malloc) returns (r: int)
    requires Open(buf) && buf.totalLen <= SSIZE_MAX
    modifies buf, buf.Repr
    ensures Open(buf) && fresh(buf.Repr - old(buf.Repr))
    ensures var s := old(buf.Contents());
      || Refused(malloc, r, buf.Contents(), s)
      || if DecodeHead(s).None? then r == -1 && SuffixOf(buf.Contents(), s) else (r, buf.Contents()) == Consumed(s)
  {
    hide Evbuffer.Body, Flatten, ExactAt, NoEmptyPart, Evbuffer.Shape, DecodeHead, SuffixOf;
    ghost var s := buf.Contents();
    buf.TotalIs();
    var len, _ := UnmarshalHeader(buf, malloc);
    if len == -1 {
      return -1;
    }
    HeadBound(s);
    DiscardInt(buf, len, DecodeHead(s).value.dataLen);
    r := 0;
  }

  /** evbuffer_drain by an int, which is converted to size_t. */
  method DiscardInt(buf: Evbuffer, len: int, ghost dataLen: nat)
    requires Open(buf) && len == AsInt(dataLen) != -1 && dataLen < TWO_32 && dataLen <= |buf.Contents()| <= SSIZE_MAX
    modifies buf, buf.Repr
    ensures Open(buf) && fresh(buf.Repr - old(buf.Repr))
    ensures dataLen <= |old(buf.Contents())| && buf.Contents() == AfterData(old(buf.Contents()), dataLen)
  {
    hide Evbuffer.Body, Flatten, ExactAt, NoEmptyPart, Evbuffer.Shape;
    Discard(buf, AsSize(len));
  }

  /** evtag_consume removes exactly the record only if its length is a positive int, or if nothing
      follows it and its length does not look like an error. */
  lemma ConsumeExact(s: bytes)
    requires DecodeHead(s).Some?
    ensures var h := DecodeHead(s).value;
      var end := h.headLen + h.dataLen;
      (end <= |s| && Consumed(s) == (0, s[end..])) <==>
      end <= |s| && (h.dataLen < TWO_31 || (end == |s| && h.dataLen != TWO_32 - 1))
  {
    hide DecodeHead;
    HeadBound(s);
    var h := DecodeHead(s).value;
    var end := h.headLen + h.dataLen;
    if end <= |s| {
      var body := s[h.headLen..];
      SuffixTwice(s, h.headLen);
      assert body[h.dataLen..] == s[end..];
      assert |body| == |s| - h.headLen && |s[end..]| == |s| - end;
      if h.dataLen < TWO_31 {
        assert Consumed(s) == (0, body[h.dataLen..]);
      } else if h.dataLen == TWO_32 - 1 {
        assert Consumed(s).0 == -1;
      } else {
        assert Consumed(s) == (0, []);
        assert end == |s| <==> s[end..] == [];
      }
    }
  }

  /** A record of two gigabytes is consumed together with everything that follows it. */
  lemma ConsumeTooMuch(tag: nat, data: bytes, rest: bytes)
    requires tag < TWO_32 && |data| == TWO_31 && rest != []
    ensures DecodeHead(Record(tag, data) + rest).Some? && Consumed(Record(tag, data) + rest) == (0, [])
    ensures (Record(tag, data) + rest)[|Record(tag, data)|..] == rest
  {
    hide DecodeHead, Record;
    HeadRoundTrip(tag, data, rest);
    assert (data + rest)[..|data|] == data;
  }

  /** The length evtag_peek_length gives for a complete record is what evtag_consume removes in these cases only. */
  lemma PeekIsConsumed(s: bytes)
    requires DecodeHead(s).Some? && DecodeHead(s).value.headLen + DecodeHead(s).value.dataLen <= |s|
    ensures var h := DecodeHead(s).value;
      (h.headLen + h.dataLen) % TWO_32 == |s| - |Consumed(s).1| <==>
      h.dataLen < TWO_31 || (h.dataLen != TWO_32 - 1 && |s| == h.headLen + h.dataLen < TWO_32)
  {
    hide DecodeHead;
    HeadBound(s);
  }

  /** evtag_unmarshal.  A length of 2^31 or more becomes a number of bytes that evbuffer_add refuses. */
  method Unmarshal(src: Evbuffer, dst: Evbuffer, malloc: Malloc) returns (r: int, tag: nat)
    requires EvbufferMove.Apart(src, dst)
    requires Open(src) && Writable(dst) && dst.totalLen <= SSIZE_MAX && NeverFails(malloc)
    modifies src, src.Repr, dst, dst.Repr
    ensures Open(src) && Writable(dst)
    ensures var s := old(src.Contents());
      var h := DecodeHead(s);
      if h.None? then r == -1 && SuffixOf(src.Contents(), s) && dst.Contents() == old(dst.Contents())
      else
        var n, end := h.value.headLen, h.value.headLen + h.value.dataLen;
        && tag == h.value.tag
        && if end <= |s| && h.value.dataLen < TWO_31
           then r == h.value.dataLen && src.Contents() == s[end..] && dst.Contents() == old(dst.Contents()) + s[n..end]
           else r == -1 && src.Contents() == s[n..] && dst.Contents() == old(dst.Contents())
  {
    hide Evbuffer.Body, Flatten, ExactAt, NoEmptyPart, Evbuffer.Shape, DecodeHead, SuffixOf;
    ghost var s := src.Contents();
    r, tag := UnmarshalHeader(src, malloc);
    if r == -1 {
      return;
    }
    HeadBound(s);
    if r < 0 {
      // the length is converted to size_t, and refused before anything is read through the pointer
      var _ := EvbufferPullup.Pullup(src, r, malloc);
      NoSuchLength(dst, AsSize(r), malloc);
      return -1, tag;
    }
    ghost var n := DecodeHead(s).value.headLen;
    SuffixTwice(s, n);
    assert s[n..][..r] == s[n..n + r];
    var ok, data := Front(src, r, malloc);
    if !ok {
      assert s[n..n + r] == [];
    }
    Append(dst, data, malloc);
    Discard(src, r);
  }

  /** evbuffer_add of so many bytes fails. */
  lemma NoSuchLength(buf: Evbuffer, n: nat, malloc: Malloc)
    requires buf.Shape() && n > SSIZE_MAX
    ensures n > SIZE_MAX - buf.totalLen || !AddGranted(buf, n, malloc)
  {
    if buf.chains != [] {
      buf.At(|buf.chains| - 1);
    }
  }

  /** The integer a record with this tag begins with. */
  ghost function IntOf(s: bytes, needTag: nat, maxNibbles: nat): Option<Decoded> {
    var h := DecodeHead(s);
    if h.None? || h.value.tag != needTag || h.value.headLen + h.value.dataLen > |s| then None
    else
      var d := DecodeInt(s[h.value.headLen..], maxNibbles);
      if d.Some? && d.value.len <= h.value.dataLen then d else None
  }

  /** evtag_unmarshal_int and evtag_unmarshal_int64 */
  method UnmarshalInt(buf: Evbuffer, needTag: nat, maxNibbles: nat, malloc: Malloc) returns (r: int, number: nat)
    requires Open(buf) && (maxNibbles == 8 || maxNibbles == 16)
    modifies buf, buf.Repr
    ensures Open(buf) && fresh(buf.Repr - old(buf.Repr))
    ensures var s := old(buf.Contents());
      var d := IntOf(s, needTag, maxNibbles);
      || Refused(malloc, r, buf.Contents(), s)
      || if d.None? then r == -1 && SuffixOf(buf.Contents(), s)
         else
           var h := DecodeHead(s).value;
           r == d.value.len && number == d.value.value && buf.Contents() == s[h.headLen + h.dataLen..]
  {
    hide Evbuffer.Body, Flatten, ExactAt, NoEmptyPart, Evbuffer.Shape, DecodeInt, DecodeHead, SuffixOf;
    ghost var s := buf.Contents();
    number := 0;
    var len := TakeHeader(buf, needTag, malloc);
    if len == -1 {
      return -1, 0;
    }
    Suffixes(s);
    ghost var head := DecodeHead(s).value.headLen;
    SuffixTwice(s, head);
    r, number := TakeInt(buf, len, maxNibbles, malloc);
    assert buf.Contents() == s[head + len..];
  }

  /** What was marshalled as an integer with this tag comes back, and what follows stays. */
  lemma IntOfRecord(tag: nat, n: nat, maxNibbles: nat, rest: bytes)
    requires tag < TWO_32 && (maxNibbles == 8 || maxNibbles == 16) && n < Pow16(maxNibbles)
    ensures var s := Record(tag, IntBytes(n)) + rest;
      && IntOf(s, tag, maxNibbles) == Some(Decoded(n, |IntBytes(n)|))
      && DecodeHead(s).Some? && DecodeHead(s).value.headLen + DecodeHead(s).value.dataLen <= |s|
      && s[DecodeHead(s).value.headLen + DecodeHead(s).value.dataLen..] == rest
  {
    hide DecodeHead, DecodeInt, IntBytes, SevenBits, Record, Pow16;
    var d := IntBytes(n);
    Ones(8);
    if maxNibbles == 8 {
      RoundTrip32(n, rest);
    } else {
      RoundTrip64(n, rest);
    }
    HeadRoundTrip(tag, d, rest);
    var s := Record(tag, d) + rest;
    SuffixTwice(s, DecodeHead(s).value.headLen);
    assert (d + rest)[|d|..] == rest;
  }

  /** The first part: tag, length, and whether the data is all there. */
  method TakeHeader(buf: Evbuffer, needTag: nat, malloc: Malloc) returns (r: int)
    requires Open(buf)
    modifies buf, buf.Repr
    ensures Open(buf) && fresh(buf.Repr - old(buf.Repr))
    ensures var s := old(buf.Contents());
      var h := DecodeHead(s);
      || Refused(malloc, r, buf.Contents(), s)
      || if h.Some? && h.value.tag == needTag && h.value.dataLen <= |s| - h.value.headLen
         then r == h.value.dataLen && buf.Contents() == s[h.value.headLen..]
         else r == -1 && SuffixOf(buf.Contents(), s)
  {
    hide Evbuffer.Body, Flatten, ExactAt, NoEmptyPart, Evbuffer.Shape, DecodeInt, DecodeTag, SuffixOf;
    ghost var s := buf.Contents();
    Suffixes(s);
    var t, tag := DecodeTagInternal(buf, true, malloc);
    if t == -1 || needTag != tag {
      return -1;
    }
    SuffixTwice(s, t);
    var ok, len := DecodeIntFrom(buf, 8, malloc);
    buf.TotalIs();
    if ok == -1 || buf.totalLen < len {
      return -1;
    }
    r := len;
  }

  /** The last part: the integer, of which no more than len bytes count, and then all len bytes go. */
  method TakeInt(buf: Evbuffer, len: nat, maxNibbles: nat, malloc: Malloc) returns (r: int, number: nat)
    requires Open(buf) && maxNibbles <= 16 && len <= |buf.Contents()|
    modifies buf, buf.Repr
    ensures Open(buf) && fresh(buf.Repr - old(buf.Repr)) && buf.Contents() == old(buf.Contents())[len..]
    ensures var d := DecodeInt(old(buf.Contents()), maxNibbles);
      if d.Some? && d.value.len <= len && (NeverFails(malloc) || r != -1) then r == d.value.len &&
        number == d.value.value
      else r == -1
  {
    hide Evbuffer.Body, Flatten, ExactAt, NoEmptyPart, Evbuffer.Shape, DecodeInt;
    ghost var body := buf.Contents();
    assert body[0..] == body;
    r, number := DecodeIntInternal(buf, 0, maxNibbles, malloc);
    Discard(buf, len);
    if r < 0 || r > len {
      r := -1;
    }
  }

  /** evtag_unmarshal_fixed */
  method UnmarshalFixed(buf: Evbuffer, needTag: nat, len: nat, malloc: Malloc) returns (r: int, data: bytes)
    requires Open(buf)
    modifies buf, buf.Repr
    ensures Open(buf) && fresh(buf.Repr - old(buf.Repr))
    ensures var s := old(buf.Contents());
      var h := DecodeHead(s);
      || Refused(malloc, r, buf.Contents(), s)
      || if h.Some? && h.value.tag == needTag && h.value.dataLen == len < TWO_31 && h.value.headLen + len <= |s|
         then r == 0 && data == s[h.value.headLen..h.value.headLen + len] &&
           buf.Contents() == s[h.value.headLen + len..]
         else r == -1 && SuffixOf(buf.Contents(), s)
  {
    hide Evbuffer.Body, Flatten, ExactAt, NoEmptyPart, Evbuffer.Shape, DecodeHead, SuffixOf;
    ghost var s := buf.Contents();
    data := [];
    Suffixes(s);
    var n, tag := UnmarshalHeader(buf, malloc);
    if n < 0 || tag != needTag {
      return -1, [];
    }
    HeadBound(s);
    if n != len {
      return -1, [];
    }
    ghost var head := DecodeHead(s).value.headLen;
    ghost var body := buf.Contents();
    buf.TotalIs();
    r, data := Remove(buf, len);
    Taken(s, head, body, data, buf.Contents(), len);
    r := 0;
  }

  lemma Taken(s: bytes, head: nat, body: bytes, data: bytes, rest: bytes, len: nat)
    requires head <= |s| && body == s[head..] && data + rest == body && |data| == len
    ensures head + len <= |s| && data == s[head..head + len] && rest == s[head + len..]
  {
    assert data == body[..len] && rest == body[len..];
  }

  /** The time a record with this tag begins with. */
  ghost function TimeOf(s: bytes, needTag: nat): Option<(nat, nat)> {
    var h := DecodeHead(s);
    if h.None? || h.value.tag != needTag || h.value.headLen + h.value.dataLen > |s| then None
    else if h.value.dataLen >= TWO_31 then None
    else
      var body := s[h.value.headLen..];
      var sec := DecodeInt(body, 8);
      if sec.None? then None
      else
        var usec := DecodeInt(body[sec.value.len..], 8);
        if usec.None? || sec.value.len + usec.value.len > h.value.dataLen then None
        else Some((sec.value.value, usec.value.value))
  }

  /** evtag_unmarshal_timeval */
  method UnmarshalTimeval(buf: Evbuffer, needTag: nat, malloc: Malloc) returns (r: int, tvSec: nat, tvUsec: nat)
    requires Open(buf) && NeverFails(malloc) && buf.totalLen <= SSIZE_MAX
    modifies buf, buf.Repr
    ensures Open(buf) && fresh(buf.Repr - old(buf.Repr))
    ensures var time := TimeOf(old(buf.Contents()), needTag);
      if time.None? then r == -1 else r == 0 && (tvSec, tvUsec) == time.value
    ensures var s := old(buf.Contents());
      if DecodeHead(s).None? then SuffixOf(buf.Contents(), s) else buf.Contents() == Consumed(s).1
  {
    hide Evbuffer.Body, Flatten, ExactAt, NoEmptyPart, Evbuffer.Shape, DecodeHead, DecodeInt, SuffixOf;
    ghost var s := buf.Contents();
    tvSec, tvUsec, r := 0, 0, -1;
    buf.TotalIs();
    var len, tag, offset, offset2;
    len, tag := UnmarshalHeader(buf, malloc);
    if len == -1 {
      if DecodeHead(s).Some? {
        HeadBound(s);
      }
      return;
    }
    HeadBound(s);
    ghost var body := buf.Contents();
    if tag == needTag {
      assert body[0..] == body;
      offset, tvSec := DecodeIntInternal(buf, 0, 8, malloc);
      if offset != -1 {
        IntIsShort(body, 8);
        offset2, tvUsec := DecodeIntInternal(buf, offset, 8, malloc);
        if offset2 != -1 && offset + offset2 <= len {
          r := 0;
        }
      }
    }
    DiscardInt(buf, len, DecodeHead(s).value.dataLen);
  }

  lemma IntIsShort(s: bytes, maxNibbles: nat)
    requires maxNibbles <= 16
    ensures DecodeInt(s, maxNibbles).Some? ==> DecodeInt(s, maxNibbles).value.len <= 9
  {}

  /** A time that was marshalled comes back, and what follows stays. */
  lemma TimeOfRecord(tag: nat, sec: nat, usec: nat, rest: bytes)
    requires tag < TWO_32 && sec < TWO_32 && usec < TWO_32
    ensures var s := Record(tag, IntBytes(sec) + IntBytes(usec)) + rest;
      TimeOf(s, tag) == Some((sec, usec)) && DecodeHead(s).Some? && Consumed(s) == (0, rest)
  {
    hide DecodeHead, DecodeInt, IntBytes, SevenBits, Record;
    var a, b := IntBytes(sec), IntBytes(usec);
    RoundTrip32(sec, b + rest);
    RoundTrip32(usec, rest);
    HeadRoundTrip(tag, a + b, rest);
    TwoParts(a, b, rest);
  }

  lemma TwoParts(a: bytes, b: bytes, rest: bytes)
    ensures a + b + rest == a + (b + rest) && (a + b + rest)[|a|..] == b + rest && (a + b + rest)[|a| + |b|..] == rest
  {}
}
