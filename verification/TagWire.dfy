/** The wire format of event_tagging.c: tags in base 128, low bits first, and integers as a count of
    nibbles followed by the nibbles, low nibbles first. */
module TagWire {
  import opened Base128
  import opened Bytes
  import opened CInts
  import opened Options

  // ----- tags

  /** decode_tag_internal; shift is how many bits came before.  At most 32 bits are accepted. */
  function DecodeTagAt(s: bytes, shift: nat): (r: Option<Decoded>)
    ensures r.Some? ==> 0 < r.value.len <= |s|
  {
    if |s| == 0 || shift > 28 || (shift == 28 && s[0] % 128 > 15) then None
    else if s[0] < 128 then Some(Decoded(s[0] as nat, 1))
    else
      var rest := DecodeTagAt(s[1..], shift + 7);
      if rest.None? then None else Some(Decoded(s[0] as nat % 128 + 128 * rest.value.value, 1 + rest.value.len))
  }

  function DecodeTag(s: bytes): (r: Option<Decoded>)
    ensures r.Some? ==> 0 < r.value.len <= |s|
  {
    DecodeTagAt(s, 0)
  }

  /** How large a tag may still be after shift bits. */
  function TagRoom(shift: nat): nat {
    if shift == 0 then TWO_32
    else if shift == 7 then 0x200_0000
    else if shift == 14 then 0x4_0000
    else if shift == 21 then 0x800
    else 16
  }

  lemma {:induction false} TagRoundTripAt(tag: nat, shift: nat, rest: bytes)
    requires shift % 7 == 0 && shift <= 28 && tag < TagRoom(shift)
    ensures DecodeTagAt(SevenBits(tag) + rest, shift) == Some(Decoded(tag, |SevenBits(tag)|))
    ensures |SevenBits(tag)| <= 5 - shift / 7
  {
    if tag >= 128 {
      TagRoundTripAt(tag / 128, shift + 7, rest);
      assert (SevenBits(tag) + rest)[1..] == SevenBits(tag / 128) + rest;
    }
  }

  /** Every 32-bit tag decodes to itself, whatever follows, and only its own bytes are read. */
  lemma TagRoundTrip(tag: nat, rest: bytes)
    requires tag < TWO_32
    ensures DecodeTag(SevenBits(tag) + rest) == Some(Decoded(tag, |SevenBits(tag)|)) && |SevenBits(tag)| <= 5
  {
    TagRoundTripAt(tag, 0, rest);
  }

  /** Decoding looks at no more than the bytes of the tag, and at five bytes at most. */
  lemma {:induction false} TagPrefix(s: bytes, shift: nat, n: nat)
    requires shift % 7 == 0 && n <= |s| && shift + 7 * n >= 35
    ensures DecodeTagAt(s[..n], shift) == DecodeTagAt(s, shift)
    decreases n
  {
    if |s| != 0 && shift <= 28 {
      assert n > 0 && s[..n][1..] == s[1..][..n - 1];
      TagPrefix(s[1..], shift + 7, n - 1);
    }
  }

  /** Tags that are accepted fit into 32 bits. */
  lemma {:induction false} TagFits(s: bytes, shift: nat)
    requires shift % 7 == 0 && DecodeTagAt(s, shift).Some?
    ensures DecodeTagAt(s, shift).value.value < TagRoom(shift) && DecodeTagAt(s, shift).value.len <= 5
    ensures shift <= 28 && DecodeTagAt(s, shift).value.len <= 5 - shift / 7
  {
    if s[0] >= 128 {
      TagFits(s[1..], shift + 7);
    }
  }

  // ----- integers

  /** number >> 4 * j */
  function Shr(number: nat, j: nat): nat {
    if j == 0 then number else Shr(number, j - 1) / 16
  }

  function Nibble(number: nat, j: nat): (r: nat)
    ensures r < 16
  {
    Shr(number, j) % 16
  }

  /** How many nibbles number has; 0 has none. */
  function Nibbles(number: nat): nat {
    if number == 0 then 0 else 1 + Nibbles(number / 16)
  }

  lemma {:induction false} ShrDiv(number: nat, j: nat)
    ensures Shr(number / 16, j) == Shr(number, j) / 16 == Shr(number, j + 1)
  {
    if j > 0 {
      ShrDiv(number, j - 1);
    }
  }

  lemma {:induction false} ShrBeyond(number: nat, j: nat)
    ensures Shr(number, j) == 0 <==> j >= Nibbles(number)
    decreases number, j
  {
    if number == 0 {
      if j > 0 {
        ShrBeyond(0, j - 1);
      }
    } else if j > 0 {
      ShrBeyond(number / 16, j - 1);
      ShrDiv(number, j - 1);
    }
  }

  /** Nibble i of an encoded integer: nibble 0 is the count. */
  function NibbleAt(s: bytes, i: nat): (r: nat)
    requires i / 2 < |s|
    ensures r < 16
  {
    if i % 2 == 1 then s[i / 2] as nat % 16 else s[i / 2] as nat / 16
  }

  /** What nibbles n down to k + 1 spell. */
  function Number(s: bytes, n: nat, k: nat): nat
    requires k <= n && n / 2 < |s|
    decreases n - k
  {
    if k == n then 0 else 16 * Number(s, n, k + 1) + NibbleAt(s, k + 1)
  }

  /** DECODE_INT_INTERNAL on the bytes from the offset on. */
  function DecodeInt(s: bytes, maxNibbles: nat): (r: Option<Decoded>)
    ensures r.Some? ==> 0 < r.value.len <= |s|
  {
    if |s| == 0 then None
    else
      var n := s[0] as nat / 16 + 1;
      if n > maxNibbles || n / 2 + 1 > |s| then None
      else Some(Decoded(Number(s, n, 0), n / 2 + 1))
  }

  /** The count nibble of an encoded integer. */
  function CountNibble(number: nat): nat {
    if Nibbles(number) <= 1 then 0 else Nibbles(number) - 1
  }

  function IntLength(number: nat): (n: nat)
    ensures n > 0
  {
    (Nibbles(number) + 2) / 2
  }

  /** ENCODE_INT_INTERNAL */
  ghost predicate IsInt(b: bytes, number: nat) {
    && |b| == IntLength(number)
    && NibbleAt(b, 0) == CountNibble(number) % 16
    && forall i {:trigger NibbleAt(b, i)} :: 1 <= i < 2 * |b| ==> NibbleAt(b, i) == Nibble(number, i - 1)
  }

  lemma {:induction false} NumberIs(s: bytes, b: bytes, number: nat, k: nat)
    requires IsInt(b, number) && b <= s && k <= CountNibble(number) + 1
    ensures (CountNibble(number) + 1) / 2 < |s|
    ensures Number(s, CountNibble(number) + 1, k) == Shr(number, k)
    decreases CountNibble(number) + 1 - k
  {
    var n := CountNibble(number) + 1;
    assert n / 2 < |b|;
    ShrBeyond(number, k);
    if k < n {
      NumberIs(s, b, number, k + 1);
      assert NibbleAt(s, k + 1) == NibbleAt(b, k + 1);
    }
  }

  lemma CountLength(number: nat)
    ensures IntLength(number) == (CountNibble(number) + 1) / 2 + 1
    ensures Nibbles(number) <= 16 ==> CountNibble(number) < 16
    ensures CountNibble(number) + 1 == if Nibbles(number) == 0 then 1 else Nibbles(number)
  {}

  /** The count nibble comes back as the count. */
  lemma FirstNibble(b: bytes, number: nat, rest: bytes)
    requires IsInt(b, number) && CountNibble(number) < 16
    ensures |b| > 0 && |b + rest| > 0 && (b + rest)[0] as nat / 16 == CountNibble(number) && |b| == IntLength(number)
  {
    hide CountNibble, IntLength, Nibbles;
    assert NibbleAt(b, 0) == CountNibble(number);
  }

  /** Every integer of at most maxNibbles nibbles decodes to itself, whatever follows, and only its own
      bytes are read. */
  lemma IntRoundTrip(b: bytes, number: nat, maxNibbles: nat, rest: bytes)
    requires IsInt(b, number) && Nibbles(number) <= maxNibbles && 1 <= maxNibbles <= 16
    ensures DecodeInt(b + rest, maxNibbles) == Some(Decoded(number, |b|))
  {
    hide IsInt, CountNibble, IntLength, Nibbles, Number;
    CountLength(number);
    NumberIs(b + rest, b, number, 0);
    FirstNibble(b, number, rest);
    assert CountNibble(number) + 1 <= maxNibbles;
  }

  lemma {:induction false} NibblesOf(number: nat, bound: nat, n: nat)
    requires number < bound && Shr(bound - 1, n) == 0
    ensures Nibbles(number) <= n
  {
    ShrMono(number, bound - 1, n);
    ShrBeyond(number, n);
  }

  lemma {:induction false} ShrMono(a: nat, b: nat, n: nat)
    requires a <= b
    ensures Shr(a, n) <= Shr(b, n)
  {
    if n > 0 {
      ShrMono(a, b, n - 1);
    }
  }

  /** The encoding, byte by byte. */
  function IntBytes(number: nat): (b: bytes)
    ensures |b| == IntLength(number)
  {
    seq(IntLength(number), i requires 0 <= i =>
      (16 * (if i == 0 then CountNibble(number) % 16 else Nibble(number, 2 * i - 1)) + Nibble(number, 2 * i)) as byte)
  }

  lemma IntBytesAre(number: nat)
    ensures IsInt(IntBytes(number), number)
  {
    var b := IntBytes(number);
    forall i {:trigger NibbleAt(b, i)} | 1 <= i < 2 * |b|
      ensures NibbleAt(b, i) == Nibble(number, i - 1)
    {
      var high := if i / 2 == 0 then CountNibble(number) % 16 else Nibble(number, 2 * (i / 2) - 1);
      assert b[i / 2] as nat == 16 * high + Nibble(number, 2 * (i / 2));
    }
  }

  lemma IsIntUnique(b: bytes, number: nat)
    requires IsInt(b, number)
    ensures b == IntBytes(number)
  {
    var c := IntBytes(number);
    IntBytesAre(number);
    forall i | 0 <= i < |b|
      ensures b[i] == c[i]
    {
      NibblesMakeByte(b, i);
      NibblesMakeByte(c, i);
    }
  }

  lemma NibblesMakeByte(b: bytes, i: nat)
    requires i < |b|
    ensures b[i] as nat == 16 * NibbleAt(b, 2 * i) + NibbleAt(b, 2 * i + 1)
  {}

  /** IntBytes round trips for 32-bit and 64-bit numbers. */
  lemma RoundTrip32(number: nat, rest: bytes)
    requires number < TWO_32
    ensures DecodeInt(IntBytes(number) + rest, 8) == Some(Decoded(number, |IntBytes(number)|))
    ensures |IntBytes(number)| <= 5
  {
    Ones(8);
    NibblesOf(number, TWO_32, 8);
    IntBytesAre(number);
    IntRoundTrip(IntBytes(number), number, 8, rest);
  }

  lemma RoundTrip64(number: nat, rest: bytes)
    requires number < TWO_64
    ensures DecodeInt(IntBytes(number) + rest, 16) == Some(Decoded(number, |IntBytes(number)|))
    ensures |IntBytes(number)| <= 9
  {
    Ones(16);
    NibblesOf(number, TWO_64, 16);
    IntBytesAre(number);
    IntRoundTrip(IntBytes(number), number, 16, rest);
  }

  function Pow16(n: nat): (p: nat)
    ensures p > 0
  {
    if n == 0 then 1 else 16 * Pow16(n - 1)
  }

  lemma {:induction false} ShrOfPow(x: nat, m: nat, n: nat)
    requires x < Pow16(m)
    ensures n >= m ==> Shr(x, n) == 0
    ensures n < m ==> Shr(x, n) < Pow16(m - n)
  {
    if n > 0 {
      ShrOfPow(x, m, n - 1);
    }
  }

  lemma Ones(n: nat)
    requires n == 8 || n == 16
    ensures Pow16(8) == TWO_32 && Pow16(16) == TWO_64
    ensures Shr(if n == 8 then TWO_32 - 1 else TWO_64 - 1, n) == 0
  {
    assert Pow16(4) == 0x1_0000;
    assert Pow16(8) == TWO_32;
    assert Pow16(12) == 0x1_0000_0000_0000;
    assert Pow16(16) == TWO_64;
    ShrOfPow(if n == 8 then TWO_32 - 1 else TWO_64 - 1, n, n);
  }

  lemma {:induction false} NumberBound(s: bytes, n: nat, k: nat)
    requires k <= n && n / 2 < |s|
    ensures Number(s, n, k) < Pow16(n - k)
    decreases n - k
  {
    if k < n {
      NumberBound(s, n, k + 1);
    }
  }

  lemma {:induction false} PowMono(m: nat, n: nat)
    requires m <= n
    ensures Pow16(m) <= Pow16(n)
  {
    if m < n {
      PowMono(m, n - 1);
    }
  }

  lemma {:induction false} NumberPrefix(b: bytes, s: bytes, n: nat, k: nat)
    requires b <= s && k <= n && n / 2 < |b|
    ensures Number(b, n, k) == Number(s, n, k)
    decreases n - k
  {
    if k < n {
      NumberPrefix(b, s, n, k + 1);
      assert b[(k + 1) / 2] == s[(k + 1) / 2];
    }
  }

  // ----- records

  /** evtag_marshal */
  function Record(tag: nat, data: bytes): bytes {
    SevenBits(tag) + (IntBytes(|data|) + data)
  }

  /** The tag of the first record, how long its header is, and how long its data is. */
  datatype Head = Head(tag: nat, headLen: nat, dataLen: nat)

  function DecodeHead(s: bytes): (r: Option<Head>)
    ensures r.Some? ==> r.value.headLen <= |s|
  {
    var t := DecodeTag(s);
    if t.None? then None
    else
      var n := DecodeInt(s[t.value.len..], 8);
      if n.None? then None else Some(Head(t.value.value, t.value.len + n.value.len, n.value.value))
  }

  /** The numbers in a header have 32 bits. */
  lemma HeadBound(s: bytes)
    requires DecodeHead(s).Some?
    ensures var h := DecodeHead(s).value; h.tag < TWO_32 && h.dataLen < TWO_32 && 0 < h.headLen <= 10
  {
    var t := DecodeTag(s).value;
    TagFits(s, 0);
    var body := s[t.len..];
    NumberBound(body, body[0] as nat / 16 + 1, 0);
    PowMono(body[0] as nat / 16 + 1, 8);
    Ones(8);
  }

  lemma HeadRoundTrip(tag: nat, data: bytes, rest: bytes)
    requires tag < TWO_32 && |data| < TWO_32
    ensures DecodeHead(Record(tag, data) + rest) == Some(Head(tag, |SevenBits(tag)| + |IntBytes(|data|)|, |data|))
    ensures (Record(tag, data) + rest)[|SevenBits(tag)| + |IntBytes(|data|)|..] == data + rest
  {
    hide DecodeTag, DecodeInt;
    var t, l := SevenBits(tag), IntBytes(|data|);
    var s := Record(tag, data) + rest;
    assert s == t + (l + (data + rest));
    TagRoundTrip(tag, l + (data + rest));
    assert s[|t|..] == l + (data + rest);
    RoundTrip32(|data|, data + rest);
  }

  datatype TagData = TagData(tag: nat, data: bytes)

  function StreamOf(records: seq<TagData>): bytes {
    if records == [] then [] else Record(records[0].tag, records[0].data) + StreamOf(records[1..])
  }

  /** The first record of a stream, and what follows it. */
  function FirstRecord(s: bytes): (r: Option<(TagData, bytes)>)
    ensures r.Some? ==> |r.value.1| < |s|
  {
    var h := DecodeHead(s);
    if h.None? || h.value.headLen + h.value.dataLen > |s| || h.value.headLen == 0 then None
    else
      var end := h.value.headLen + h.value.dataLen;
      Some((TagData(h.value.tag, s[h.value.headLen..end]), s[end..]))
  }

  /** All records of a stream; nothing if some record is broken. */
  function ParseAll(s: bytes): Option<seq<TagData>>
    decreases |s|
  {
    if |s| == 0 then Some([])
    else
      var first := FirstRecord(s);
      if first.None? then None
      else
        var rest := ParseAll(first.value.1);
        if rest.None? then None else Some([first.value.0] + rest.value)
  }

  lemma FirstIs(s: bytes, head: Head, data: bytes, rest: bytes)
    requires DecodeHead(s) == Some(head) && s[head.headLen..] == data + rest && |data| == head.dataLen
    requires head.headLen > 0
    ensures FirstRecord(s) == Some((TagData(head.tag, data), rest)) && |s| > 0
  {
    hide DecodeHead;
    var end := head.headLen + head.dataLen;
    assert s[head.headLen..end] == (data + rest)[..|data|] == data;
    assert s[end..] == (data + rest)[|data|..] == rest;
  }

  /** A concatenation of records parses back to the same list. */
  lemma {:induction false} StreamRoundTrip(records: seq<TagData>)
    requires forall i :: 0 <= i < |records| ==> records[i].tag < TWO_32 && |records[i].data| < TWO_32
    ensures ParseAll(StreamOf(records)) == Some(records)
  {
    if records != [] {
      hide DecodeHead, SevenBits, IntBytes, Record, FirstRecord;
      var r, rest := records[0], StreamOf(records[1..]);
      StreamRoundTrip(records[1..]);
      HeadRoundTrip(r.tag, r.data, rest);
      FirstIs(StreamOf(records), Head(r.tag, |SevenBits(r.tag)| + |IntBytes(|r.data|)|, |r.data|), r.data, rest);
      assert [r] + records[1..] == records;
    }
  }
}
