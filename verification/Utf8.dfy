/** UTF8ToRawBEUTF16 of StringUtils.cpp. */
module Utf8 {
  import opened Bytes
  import opened Options

  // ----- section 3 of RFC 3629 and section 2.1 of RFC 2781

  /** The characters: code points but for the surrogates. */
  predicate Scalar(c: int) {
    0 <= c < 0x110000 && !(0xD800 <= c < 0xE000)
  }

  function EncodeUtf8(c: nat): (b: bytes)
    requires Scalar(c)
    ensures 1 <= |b| <= 4
  {
    if c < 0x80 then [c as byte]
    else if c < 0x800 then [(0xC0 + c / 0x40) as byte, (0x80 + c % 0x40) as byte]
    else if c < 0x10000 then [(0xE0 + c / 0x1000) as byte, (0x80 + c / 0x40 % 0x40) as byte, (0x80 + c % 0x40) as byte]
    else
      [(0xF0 + c / 0x40000) as byte, (0x80 + c / 0x1000 % 0x40) as byte] +
      [(0x80 + c / 0x40 % 0x40) as byte, (0x80 + c % 0x40) as byte]
  }

  /** Code units in big-endian byte order, which is what htons leaves in memory. */
  function Unit(u: nat): bytes
    requires u < 0x10000
  {
    [(u / 0x100) as byte, (u % 0x100) as byte]
  }

  function EncodeUtf16(c: nat): (b: bytes)
    requires Scalar(c)
    ensures |b| > 0
  {
    if c < 0x10000 then Unit(c)
    else Unit(0xD800 + (c - 0x10000) / 0x400) + Unit(0xDC00 + (c - 0x10000) % 0x400)
  }

  predicate AllScalar(cs: seq<nat>) {
    forall i :: 0 <= i < |cs| ==> Scalar(cs[i])
  }

  function Utf8Of(cs: seq<nat>): bytes
    requires AllScalar(cs)
  {
    if cs == [] then [] else EncodeUtf8(cs[0]) + Utf8Of(cs[1..])
  }

  function Utf16Of(cs: seq<nat>): bytes
    requires AllScalar(cs)
  {
    if cs == [] then [] else EncodeUtf16(cs[0]) + Utf16Of(cs[1..])
  }

  /** The unit that two bytes hold, the high one first. */
  function UnitAt(b: bytes, i: nat): nat
    requires i + 1 < |b|
  {
    256 * b[i] as nat + b[i + 1] as nat
  }

  /** The decoder of section 2.2 of RFC 2781: the first character, and how many bytes it took; none if a unit
      is missing, or a surrogate does not pair. */
  function DecodeUtf16(b: bytes): Option<(nat, nat)> {
    if |b| < 2 then None
    else
      var w1 := UnitAt(b, 0);
      if w1 < 0xD800 || w1 > 0xDFFF then Some((w1, 2))
      else if w1 > 0xDBFF || |b| < 4 then None
      else
        var w2 := UnitAt(b, 2);
        if w2 < 0xDC00 || w2 > 0xDFFF then None
        else Some((0x400 * (w1 - 0xD800) + (w2 - 0xDC00) + 0x10000, 4))
  }

  lemma UnitBytes(u: nat)
    requires u < 0x10000
    ensures |Unit(u)| == 2 && UnitAt(Unit(u), 0) == u
  {}

  lemma Surrogates(c: nat)
    requires 0x10000 <= c < 0x110000
    ensures var h, l := 0xD800 + (c - 0x10000) / 0x400, 0xDC00 + (c - 0x10000) % 0x400;
      h <= 0xDBFF && 0xDC00 <= l <= 0xDFFF && 0x400 * (h - 0xD800) + (l - 0xDC00) + 0x10000 == c
  {}

  /** What the source outputs for a character is read back as that character, whatever follows. */
  lemma Utf16RoundTrip(c: nat, rest: bytes)
    requires Scalar(c)
    ensures DecodeUtf16(EncodeUtf16(c) + rest) == Some((c, |EncodeUtf16(c)|))
  {
    hide Unit;
    var b := EncodeUtf16(c) + rest;
    if c < 0x10000 {
      UnitBytes(c);
      assert b[0] == Unit(c)[0] && b[1] == Unit(c)[1];
    } else {
      var h, l := 0xD800 + (c - 0x10000) / 0x400, 0xDC00 + (c - 0x10000) % 0x400;
      Surrogates(c);
      UnitBytes(h);
      UnitBytes(l);
      assert b == Unit(h) + (Unit(l) + rest);
      assert b[0] == Unit(h)[0] && b[1] == Unit(h)[1] && b[2] == Unit(l)[0] && b[3] == Unit(l)[1];
    }
  }

  lemma UnitOf(b: bytes, i: nat)
    requires i + 1 < |b|
    ensures UnitAt(b, i) < 0x10000 && Unit(UnitAt(b, i)) == b[i..i + 2]
  {}

  /** And nothing else is read as a character. */
  lemma Utf16Unique(b: bytes, c: nat, n: nat)
    requires DecodeUtf16(b) == Some((c, n))
    ensures Scalar(c) && n <= |b| && b[..n] == EncodeUtf16(c)
  {
    hide Unit, UnitAt;
    UnitOf(b, 0);
    if n == 4 {
      UnitOf(b, 2);
      var w1, w2 := UnitAt(b, 0), UnitAt(b, 2);
      assert c - 0x10000 == 0x400 * (w1 - 0xD800) + (w2 - 0xDC00);
      assert b[..4] == b[..2] + b[2..4];
    }
  }

  /** Decoding until the end, or until something cannot be decoded. */
  function DecodeAll(b: bytes): seq<nat>
    decreases |b|
  {
    match DecodeUtf16(b)
    case None => []
    case Some((c, n)) => [c] + DecodeAll(b[n..])
  }

  /** So are strings of them. */
  lemma {:induction false} Utf16StringRoundTrip(cs: seq<nat>)
    requires AllScalar(cs)
    ensures DecodeAll(Utf16Of(cs)) == cs
  {
    hide EncodeUtf16, DecodeUtf16;
    if cs == [] {
      Nothing();
    } else {
      var e, rest := EncodeUtf16(cs[0]), Utf16Of(cs[1..]);
      Utf16RoundTrip(cs[0], rest);
      assert (e + rest)[|e|..] == rest;
      Utf16StringRoundTrip(cs[1..]);
    }
  }

  lemma Nothing()
    ensures DecodeUtf16([]) == None
  {}

  // ----- the source

  /** trailingBytesForUTF8 */
  function Trailing(b: byte): (n: nat)
    ensures n <= 5
  {
    if b < 0xC0 then 0
    else if b < 0xE0 then 1
    else if b < 0xF0 then 2
    else if b < 0xF8 then 3
    else if b < 0xFC then 4
    else 5
  }

  /** offsetsFromUTF8 */
  function Offset(extra: nat): nat
    requires extra < 6
  {
    if extra == 0 then 0 else if extra == 1 then 0x3080 else if extra == 2 then 0xE2080
    else if extra == 3 then 0x3C82080 else if extra == 4 then 0xFA082080 else 0x82082080
  }

  predicate Continuation(b: byte) {
    0x80 <= b <= 0xBF
  }

  /** isLegalUTF8.  After 0xED and after 0xF4 only the upper bound of the second byte is tested. */
  predicate IsLegal(s: bytes, length: nat)
    requires 0 < length <= |s|
  {
    && length <= 4
    && (length >= 4 ==> Continuation(s[3]))
    && (length >= 3 ==> Continuation(s[2]))
    && (length >= 2 ==>
          var a := s[1];
          && a <= 0xBF
          && (if s[0] == 0xE0 then a >= 0xA0
              else if s[0] == 0xED then a <= 0x9F
              else if s[0] == 0xF0 then a >= 0x90
              else if s[0] == 0xF4 then a <= 0x8F
              else a >= 0x80))
    && !(0x80 <= s[0] < 0xC2)
    && s[0] <= 0xF4
  }

  /** The source goes on with this character. */
  predicate Accepts(s: bytes) {
    s != [] && Trailing(s[0]) < |s| && IsLegal(s, Trailing(s[0]) + 1)
  }

  /** The bytes of one character, shifted together. */
  function Gather(s: bytes, n: nat): nat
    requires n <= |s|
  {
    if n == 0 then 0 else 64 * Gather(s, n - 1) + s[n - 1] as nat
  }

  lemma GatherIs(s: bytes, n: nat)
    requires 0 < n <= |s| && n <= 4
    ensures n == 1 ==> Gather(s, n) == s[0] as nat
    ensures n == 2 ==> Gather(s, n) == 0x40 * s[0] as nat + s[1] as nat
    ensures n == 3 ==> Gather(s, n) == 0x1000 * s[0] as nat + 0x40 * s[1] as nat + s[2] as nat
    ensures n == 4 ==> Gather(s, n) == 0x40000 * s[0] as nat + 0x1000 * s[1] as nat + 0x40 * s[2] as nat + s[3] as nat
  {
    assert Gather(s, 1) == 64 * Gather(s, 0) + s[0] as nat;
    if n >= 2 {
      assert Gather(s, 2) == 64 * Gather(s, 1) + s[1] as nat;
    }
    if n >= 3 {
      assert Gather(s, 3) == 64 * Gather(s, 2) + s[2] as nat;
    }
  }

  /** The character at the start of s. */
  function Value(s: bytes): int
    requires Accepts(s)
  {
    Gather(s, Trailing(s[0]) + 1) - Offset(Trailing(s[0]))
  }

  // ----- what is accepted

  /** What the source accepts although it is not UTF-8: a second byte below the continuation bytes. */
  predicate Slips(s: bytes) {
    Accepts(s) && |s| >= 2 && (s[0] == 0xED || s[0] == 0xF4) && s[1] < 0x80
  }

  lemma Digits2(p: nat, q: nat)
    requires q < 0x40
    ensures (0x40 * p + q) / 0x40 == p && (0x40 * p + q) % 0x40 == q
  {}

  lemma Digits3(p: nat, q: nat, r: nat)
    requires q < 0x40 && r < 0x40
    ensures var v := 0x1000 * p + 0x40 * q + r;
      v / 0x1000 == p && v / 0x40 % 0x40 == q && v % 0x40 == r
  {
    Digits2(0x40 * p + q, r);
    Digits2(p, q);
  }

  lemma Digits4(p: nat, q: nat, r: nat, t: nat)
    requires q < 0x40 && r < 0x40 && t < 0x40
    ensures var v := 0x40000 * p + 0x1000 * q + 0x40 * r + t;
      v / 0x40000 == p && v / 0x1000 % 0x40 == q && v / 0x40 % 0x40 == r && v % 0x40 == t
  {
    Digits3(0x40 * p + q, r, t);
    Digits2(p, q);
  }

  lemma Accepted2(a: nat, b: nat)
    requires 0xC2 <= a < 0xE0 && 0x80 <= b < 0xC0
    ensures var v := 0x40 * a + b - 0x3080; 0x80 <= v < 0x800 && 0xC0 + v / 0x40 == a && 0x80 + v % 0x40 == b
  {
    Digits2(a - 0xC0, b - 0x80);
  }

  lemma Accepted3(a: nat, b: nat, c: nat)
    requires 0xE0 <= a < 0xF0 && 0x80 <= b < 0xC0 && 0x80 <= c < 0xC0 && (a == 0xE0 ==> b >= 0xA0)
    requires (a == 0xED ==> b < 0xA0)
    ensures var v := 0x1000 * a + 0x40 * b + c - 0xE2080;
      0x800 <= v < 0x10000 && Scalar(v) && 0xE0 + v / 0x1000 == a && 0x80 + v / 0x40 % 0x40 == b && 0x80 + v % 0x40 == c
  {
    Digits3(a - 0xE0, b - 0x80, c - 0x80);
  }

  lemma Accepted4(a: nat, b: nat, c: nat, d: nat)
    requires 0xF0 <= a <= 0xF4 && 0x80 <= b < 0xC0 && 0x80 <= c < 0xC0 && 0x80 <= d < 0xC0
    requires (a == 0xF0 ==> b >= 0x90) && (a == 0xF4 ==> b < 0x90)
    ensures var v := 0x40000 * a + 0x1000 * b + 0x40 * c + d - 0x3C82080;
      && 0x10000 <= v < 0x110000 && 0xF0 + v / 0x40000 == a
      && 0x80 + v / 0x1000 % 0x40 == b && 0x80 + v / 0x40 % 0x40 == c && 0x80 + v % 0x40 == d
  {
    Digits4(a - 0xF0, b - 0x80, c - 0x80, d - 0x80);
  }

  lemma AcceptedSlip(a: nat, b: nat, c: nat, d: nat)
    requires b < 0x80 && 0x80 <= c < 0xC0 && 0x80 <= d < 0xC0
    ensures 0xB000 <= 0x1000 * 0xED + 0x40 * b + c - 0xE2080 < 0xD000
    ensures 0x80000 <= 0x40000 * 0xF4 + 0x1000 * b + 0x40 * c + d - 0x3C82080 < 0x100000
  {}

  /** Neither a surrogate nor a value out of range is ever found, and but for the slips it is the
      character that UTF-8 encodes this way. */
  lemma AcceptedValue(s: bytes)
    requires Accepts(s)
    ensures Scalar(Value(s))
    ensures EncodeUtf8(Value(s)) == s[..Trailing(s[0]) + 1] <==> !Slips(s)
  {
    hide EncodeUtf8;
    if Slips(s) {
      SlippedValue(s);
      SecondByte(Value(s));
    } else {
      ProperValue(s);
    }
  }

  lemma SlippedValue(s: bytes)
    requires Slips(s)
    ensures Scalar(Value(s)) && Value(s) >= 0x80 && Trailing(s[0]) >= 2
  {
    GatherIs(s, Trailing(s[0]) + 1);
    AcceptedSlip(s[0] as nat, s[1] as nat, s[2] as nat, if Trailing(s[0]) == 3 then s[3] as nat else 0x80);
  }

  lemma Proper2(s: bytes)
    requires Accepts(s) && !Slips(s) && Trailing(s[0]) == 1
    ensures Scalar(Value(s)) && EncodeUtf8(Value(s)) == s[..2]
  {
    GatherIs(s, 2);
    Accepted2(s[0] as nat, s[1] as nat);
    assert s[..2] == [s[0], s[1]];
  }

  lemma Proper3(s: bytes)
    requires Accepts(s) && !Slips(s) && Trailing(s[0]) == 2
    ensures Scalar(Value(s)) && EncodeUtf8(Value(s)) == s[..3]
  {
    GatherIs(s, 3);
    Accepted3(s[0] as nat, s[1] as nat, s[2] as nat);
    assert s[..3] == [s[0], s[1], s[2]];
  }

  lemma Proper4(s: bytes)
    requires Accepts(s) && !Slips(s) && Trailing(s[0]) == 3
    ensures Scalar(Value(s)) && EncodeUtf8(Value(s)) == s[..4]
  {
    GatherIs(s, 4);
    Accepted4(s[0] as nat, s[1] as nat, s[2] as nat, s[3] as nat);
    assert s[..4] == [s[0], s[1], s[2], s[3]];
  }

  lemma ProperValue(s: bytes)
    requires Accepts(s) && !Slips(s)
    ensures Scalar(Value(s)) && EncodeUtf8(Value(s)) == s[..Trailing(s[0]) + 1]
  {
    hide Gather;
    LegalLength(s, Trailing(s[0]));
    if Trailing(s[0]) == 0 {
      GatherIs(s, 1);
    } else if Trailing(s[0]) == 1 {
      Proper2(s);
    } else if Trailing(s[0]) == 2 {
      Proper3(s);
    } else {
      Proper4(s);
    }
  }

  lemma SecondByte(c: int)
    ensures Scalar(c) && |EncodeUtf8(c)| >= 2 ==> EncodeUtf8(c)[1] >= 0x80
    ensures Scalar(c) && c >= 0x80 ==> |EncodeUtf8(c)| >= 2
  {}

  /** The digits of a character of two, three or four bytes. */
  lemma Encoded2(c: nat)
    requires 0x80 <= c < 0x800
    ensures 0xC2 <= 0xC0 + c / 0x40 < 0xE0 && c == 0x40 * (0xC0 + c / 0x40) + (0x80 + c % 0x40) - 0x3080
  {}

  lemma Encoded3(c: nat)
    requires 0x800 <= c < 0x10000 && Scalar(c)
    ensures var a, b, d := 0xE0 + c / 0x1000, 0x80 + c / 0x40 % 0x40, 0x80 + c % 0x40;
      && 0xE0 <= a < 0xF0 && 0x80 <= b < 0xC0 && 0x80 <= d < 0xC0
      && (a == 0xE0 ==> b >= 0xA0) && (a == 0xED ==> b <= 0x9F)
      && c == 0x1000 * a + 0x40 * b + d - 0xE2080
  {
    var m := c / 0x40;
    assert c == 0x40 * m + c % 0x40 && m == 0x40 * (c / 0x1000) + m % 0x40;
  }

  lemma Encoded4(c: nat)
    requires 0x10000 <= c < 0x110000
    ensures var a, b, d, e := 0xF0 + c / 0x40000, 0x80 + c / 0x1000 % 0x40, 0x80 + c / 0x40 % 0x40, 0x80 + c % 0x40;
      && 0xF0 <= a <= 0xF4 && 0x80 <= b < 0xC0 && 0x80 <= d < 0xC0 && 0x80 <= e < 0xC0
      && (a == 0xF0 ==> b >= 0x90) && (a == 0xF4 ==> b <= 0x8F)
      && c == 0x40000 * a + 0x1000 * b + 0x40 * d + e - 0x3C82080
  {
    var m, k := c / 0x40, c / 0x1000;
    assert c == 0x40 * m + c % 0x40 && m == 0x40 * k + m % 0x40 && k == 0x40 * (c / 0x40000) + k % 0x40;
  }

  /** Every encoded character is accepted, whatever follows. */
  lemma EncodedAccepted(c: nat, rest: bytes)
    requires Scalar(c)
    ensures var s := EncodeUtf8(c) + rest;
      Accepts(s) && !Slips(s) && Trailing(s[0]) + 1 == |EncodeUtf8(c)| && Value(s) == c
  {
    var e := EncodeUtf8(c);
    var s := e + rest;
    GatherIs(s, |e|);
    if c < 0x80 {
      assert s[0] == e[0];
    } else if c < 0x800 {
      Encoded2(c);
      assert s[0] == e[0] && s[1] == e[1];
    } else if c < 0x10000 {
      Encoded3(c);
      assert s[0] == e[0] && s[1] == e[1] && s[2] == e[2];
    } else {
      Encoded4(c);
      assert s[0] == e[0] && s[1] == e[1] && s[2] == e[2] && s[3] == e[3];
    }
  }

  // ----- the conversion

  /** What the source outputs. */
  function Convert(s: bytes): bytes {
    if !Accepts(s) then []
    else
      AcceptedValue(s);
      EncodeUtf16(Value(s)) + Convert(s[Trailing(s[0]) + 1..])
  }

  lemma {:induction false} ConvertWellFormed(cs: seq<nat>, rest: bytes)
    requires AllScalar(cs)
    ensures Convert(Utf8Of(cs) + rest) == Utf16Of(cs) + Convert(rest)
  {
    hide Accepts, Value, EncodeUtf8, EncodeUtf16;
    if cs == [] {
      assert [] + rest == rest;
      assert [] + Convert(rest) == Convert(rest);
    } else {
      var e, more := EncodeUtf8(cs[0]), Utf8Of(cs[1..]) + rest;
      assert Utf8Of(cs) + rest == e + more;
      EncodedAccepted(cs[0], more);
      assert (e + more)[|e|..] == more;
      ConvertWellFormed(cs[1..], rest);
      Assoc(EncodeUtf16(cs[0]), Utf16Of(cs[1..]), Convert(rest));
    }
  }

  /** No character starts here. */
  ghost predicate NoCharacter(s: bytes) {
    forall c: nat :: Scalar(c) ==> !(EncodeUtf8(c) <= s)
  }

  /** The longest well-formed prefix of s is that of cs. */
  ghost predicate LongestPrefix(s: bytes, cs: seq<nat>, rest: bytes) {
    AllScalar(cs) && s == Utf8Of(cs) + rest && NoCharacter(rest)
  }

  /** Every string has one. */
  lemma PrefixOf(s: bytes) returns (cs: seq<nat>, rest: bytes)
    ensures LongestPrefix(s, cs, rest)
    decreases |s|
  {
    hide EncodeUtf8, Scalar;
    if c: nat :| Scalar(c) && EncodeUtf8(c) <= s {
      var e := EncodeUtf8(c);
      cs, rest := PrefixOf(s[|e|..]);
      assert s == e + s[|e|..];
      Assoc(e, Utf8Of(cs), rest);
      assert ([c] + cs)[1..] == cs;
      cs := [c] + cs;
    } else {
      cs, rest := [], s;
      assert [] + s == s;
    }
  }

  /** The output is exactly the UTF-16 encoding of the longest well-formed prefix if and only if what
      follows the prefix is not a character that slips through. */
  lemma ConvertsPrefix(s: bytes, cs: seq<nat>, rest: bytes)
    requires LongestPrefix(s, cs, rest)
    ensures Convert(s) == Utf16Of(cs) <==> !Slips(rest)
    ensures Utf16Of(cs) <= Convert(s)
  {
    ConvertWellFormed(cs, rest);
    CharacterIfAccepted(rest);
    if Accepts(rest) {
      assert |Convert(rest)| > 0;
    } else {
      assert Utf16Of(cs) + [] == Utf16Of(cs);
    }
  }

  lemma CharacterIfAccepted(s: bytes)
    ensures Accepts(s) && !Slips(s) ==> !NoCharacter(s)
  {
    if Accepts(s) && !Slips(s) {
      AcceptedValue(s);
      assert EncodeUtf8(Value(s)) <= s;
    }
  }

  /** For example: 0xED, 0x41, 0x80 is not UTF-8, and is output as one character. */
  lemma SlipExample()
    ensures var s: bytes := [0xED, 0x41, 0x80]; NoCharacter(s) && Convert(s) == Unit(0xC040)
  {
    var s: bytes := [0xED, 0x41, 0x80];
    assert Slips(s);
    GatherIs(s, 3);
    assert Value(s) == 0xC040;
    forall c: nat | Scalar(c)
      ensures !(EncodeUtf8(c) <= s)
    {
      SecondByte(c);
      assert |EncodeUtf8(c)| == 1 ==> EncodeUtf8(c)[0] < 0x80;
    }
    assert s[3..] == [];
    assert Convert([]) == [];
  }

  /** The bytes of one character, in 32 bits; the fall-through cases amount to this loop. */
  method ReadCharacter(s: bytes, extra: nat) returns (ch: nat)
    requires extra < 4 && extra < |s| && Gather(s, extra + 1) >= Offset(extra)
    ensures ch == Gather(s, extra + 1) - Offset(extra)
  {
    var i := 0;
    ch := 0;
    GatherBound(s, extra + 1);
    while i < extra
      invariant i <= extra && ch == 64 * Gather(s, i)
    {
      GatherBound(s, i + 1);
      ch := (ch + s[i] as nat) % 0x1_0000_0000;
      ch := 64 * ch % 0x1_0000_0000;
      i := i + 1;
    }
    ch := (ch + s[i] as nat) % 0x1_0000_0000;
    ch := (ch - Offset(extra)) % 0x1_0000_0000;
  }

  lemma {:induction false} GatherBound(s: bytes, n: nat)
    requires n <= |s| && n <= 4
    ensures Gather(s, n) <
      if n == 0 then 1 else if n == 1 then 0x100 else if n == 2 then 0x4100
      else if n == 3 then 0x10_4100 else 0x410_4100
  {
    if n > 0 {
      GatherBound(s, n - 1);
    }
  }

  /** The code units of a character; a surrogate or a value out of range would become a space. */
  method Units(ch: nat) returns (units: bytes)
    ensures units == if Scalar(ch) then EncodeUtf16(ch) else Unit(32)
  {
    var c := ch;
    if c <= 0xFFFF {
      if c >= 0xD800 && c <= 0xDFFF {
        c := 32;
      }
      units := Unit(c);
    } else if c > 0x10FFFF {
      units := Unit(32);
    } else {
      c := c - 0x10000;
      units := Unit(c / 0x400 + 0xD800) + Unit(c % 0x400 + 0xDC00);
    }
  }

  /** One character.  Neither replacement by a space ever happens. */
  method ConvertOne(source: bytes) returns (units: bytes)
    requires Accepts(source) && Scalar(Value(source))
    ensures units == EncodeUtf16(Value(source))
  {
    hide EncodeUtf8, EncodeUtf16, IsLegal, Gather, Slips;
    var extra := Trailing(source[0]);
    LegalLength(source, extra);
    var ch := ReadCharacter(source, extra);
    units := Units(ch);
  }

  /** UTF8ToRawBEUTF16 */
  method Utf8ToRawBeUtf16(s: bytes) returns (out: bytes)
    ensures out == Convert(s)
  {
    hide Value, EncodeUtf8, EncodeUtf16, IsLegal, Scalar, Convert, Slips;
    out := [];
    var at := 0;
    assert s[0..] == s && [] + Convert(s) == Convert(s);
    while at < |s|
      invariant at <= |s| && out + Convert(s[at..]) == Convert(s)
    {
      var source := s[at..];
      var extra := Trailing(source[0]);
      if at + extra >= |s| || !IsLegal(source, extra + 1) {
        ConvertStops(source);
        assert out + [] == out;
        return;
      }
      AcceptedValue(source);
      ConvertGoesOn(source);
      var units := ConvertOne(source);
      Assoc(out, units, Convert(source[extra + 1..]));
      assert source[extra + 1..] == s[at + extra + 1..];
      out := out + units;
      at := at + extra + 1;
    }
    assert s[at..] == [];
    ConvertStops([]);
    assert out + [] == out;
  }

  lemma ConvertStops(s: bytes)
    requires !Accepts(s)
    ensures Convert(s) == []
  {}

  lemma ConvertGoesOn(s: bytes)
    requires Accepts(s) && Scalar(Value(s))
    ensures Convert(s) == EncodeUtf16(Value(s)) + Convert(s[Trailing(s[0]) + 1..])
  {}

  lemma LegalLength(s: bytes, extra: nat)
    requires extra < |s| && IsLegal(s, extra + 1)
    ensures extra < 4
  {}
}
