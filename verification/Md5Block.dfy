/** The MD5 block transformation, unrolled as in the source, against the tables of RFC 1321. */
module Md5Block {
  /** UInt32 */
  newtype Word = x: int | 0 <= x < 0x1_0000_0000

  /** The four registers A, B, C and D of section 3.3 of RFC 1321. */
  datatype Regs = Regs(a: Word, b: Word, c: Word, d: Word)

  // ----- section 3.4 of RFC 1321

  function Bits(x: Word): bv32 { x as bv32 }
  function FromBits(x: bv32): Word { x as Word }

  function FBits(x: bv32, y: bv32, z: bv32): bv32 { (x & y) | (!x & z) }
  function GBits(x: bv32, y: bv32, z: bv32): bv32 { (x & z) | (y & !z) }
  function HBits(x: bv32, y: bv32, z: bv32): bv32 { x ^ y ^ z }
  function IBits(x: bv32, y: bv32, z: bv32): bv32 { y ^ (x | !z) }

  function F(x: Word, y: Word, z: Word): Word { FromBits(FBits(Bits(x), Bits(y), Bits(z))) }
  function G(x: Word, y: Word, z: Word): Word { FromBits(GBits(Bits(x), Bits(y), Bits(z))) }
  function H(x: Word, y: Word, z: Word): Word { FromBits(HBits(Bits(x), Bits(y), Bits(z))) }
  function I(x: Word, y: Word, z: Word): Word { FromBits(IBits(Bits(x), Bits(y), Bits(z))) }

  /** Addition of words is modulo 2^32. */
  function Add(x: Word, y: Word): Word { ((x as int + y as int) % 0x1_0000_0000) as Word }

  function RotateBits(x: bv32, n: nat): bv32
    requires n <= 32
  {
    (x << n) | (x >> (32 - n))
  }

  function RotateLeft(x: Word, n: nat): Word
    requires n <= 32
  {
    FromBits(RotateBits(Bits(x), n))
  }

  /** a = b + ((a + f + x + t) <<< s) */
  function Mix(f: Word, a: Word, b: Word, x: Word, s: nat, t: Word): Word
    requires s <= 32
  {
    Add(RotateLeft(Add(a, Add(Add(f, x), t)), s), b)
  }

  /** In each bit, F is y where x is one, and z where it is zero. */
  lemma Chosen(x: bv32, y: bv32, z: bv32)
    ensures FBits(x, y, z) & x == y & x && FBits(x, y, z) & !x == z & !x
  {}

  /** In each bit, G is x where z is one, and y where it is zero. */
  lemma ChosenByLast(x: bv32, y: bv32, z: bv32)
    ensures GBits(x, y, z) & z == x & z && GBits(x, y, z) & !z == y & !z
  {}

  /** In each bit, H is the parity: that of x and y where z is zero, and its complement where it is one. */
  lemma Parity(x: bv32, y: bv32, z: bv32)
    ensures HBits(x, y, z) & z == !(x ^ y) & z && HBits(x, y, z) & !z == (x ^ y) & !z
  {}

  /** In each bit, I is the complement of y where x is one or z is zero, and y elsewhere. */
  lemma Complemented(x: bv32, y: bv32, z: bv32)
    ensures IBits(x, y, z) & x == !y & x && IBits(x, y, z) & !z == !y & !z
    ensures IBits(x, y, z) & !x & z == y & !x & z
  {}

  /** Each step rotates: no bit is lost, and none goes the other way. */
  lemma Rotates(x: bv32)
    ensures RotateBits(x, 7) == x.RotateLeft(7) && RotateBits(x, 12) == x.RotateLeft(12)
    ensures RotateBits(x, 17) == x.RotateLeft(17) && RotateBits(x, 22) == x.RotateLeft(22)
    ensures RotateBits(x, 5) == x.RotateLeft(5) && RotateBits(x, 9) == x.RotateLeft(9)
    ensures RotateBits(x, 14) == x.RotateLeft(14) && RotateBits(x, 20) == x.RotateLeft(20)
    ensures RotateBits(x, 4) == x.RotateLeft(4) && RotateBits(x, 11) == x.RotateLeft(11)
    ensures RotateBits(x, 16) == x.RotateLeft(16) && RotateBits(x, 23) == x.RotateLeft(23)
    ensures RotateBits(x, 6) == x.RotateLeft(6) && RotateBits(x, 10) == x.RotateLeft(10)
    ensures RotateBits(x, 15) == x.RotateLeft(15) && RotateBits(x, 21) == x.RotateLeft(21)
  {}

  /** Words and bits are the same numbers. */
  lemma SameNumbers(b: bv32)
    ensures FromBits(b) as int == b as int && Bits(FromBits(b)) == b
  {}

  lemma AddIs(x: Word, y: Word)
    ensures var s := x as int + y as int; Add(x, y) as int == if s < 0x1_0000_0000 then s else s - 0x1_0000_0000
  {}

  lemma Remainder(v: int, r: int, k: int)
    requires v == r + 0x1_0000_0000 * k && 0 <= r < 0x1_0000_0000
    ensures v % 0x1_0000_0000 == r
  {}

  /** The sums wrap round at 2^32. */
  lemma Mixes(f: Word, a: Word, b: Word, x: Word, s: nat, t: Word)
    requires s <= 32
    ensures var sum := (a as int + f as int + x as int + t as int) % 0x1_0000_0000;
      Mix(f, a, b, x, s, t) as int == (b as int + RotateLeft(sum as Word, s) as int) % 0x1_0000_0000
  {
    hide RotateLeft, Add;
    var p := Add(f, x);
    var q := Add(p, t);
    var sum := Add(a, q);
    AddIs(f, x);
    AddIs(p, t);
    AddIs(a, q);
    var total := a as int + f as int + x as int + t as int;
    var wraps := total - sum as int;
    Remainder(total, sum as int, if wraps == 0 then 0 else if wraps == 0x1_0000_0000 then 1
      else if wraps == 0x2_0000_0000 then 2 else 3);
    var r := RotateLeft(sum, s);
    AddIs(r, b);
    Remainder(b as int + r as int, Add(r, b) as int, if b as int + r as int < 0x1_0000_0000 then 0 else 1);
  }

  /** The auxiliary function of step i. */
  function Aux(i: nat, x: Word, y: Word, z: Word): Word {
    if i < 16 then F(x, y, z) else if i < 32 then G(x, y, z) else if i < 48 then H(x, y, z) else I(x, y, z)
  }

  /** The word that step i adds. */
  function Index(i: nat): (k: nat)
    ensures k < 16
  {
    if i < 16 then i else if i < 32 then (5 * i + 1) % 16 else if i < 48 then (3 * i + 5) % 16 else 7 * i % 16
  }

  function Pick(i: nat, n0: nat, n1: nat, n2: nat, n3: nat): nat {
    if i % 4 == 0 then n0 else if i % 4 == 1 then n1 else if i % 4 == 2 then n2 else n3
  }

  /** How far step i rotates. */
  function Shift(i: nat): (s: nat)
    ensures s <= 32
  {
    if i < 16 then Pick(i, 7, 12, 17, 22)
    else if i < 32 then Pick(i, 5, 9, 14, 20)
    else if i < 48 then Pick(i, 4, 11, 16, 23)
    else Pick(i, 6, 10, 15, 21)
  }

  /** The table T of section 3.4, whose element i is the integer part of 2^32 times |sin(i + 1)|. */
  function T(i: nat): Word {
    if i < 16 then T1(i) else if i < 32 then T2(i - 16) else if i < 48 then T3(i - 32) else T4(i - 48)
  }

  function T1(i: nat): Word {
    match i
    case 0 => 0xd76aa478
    case 1 => 0xe8c7b756
    case 2 => 0x242070db
    case 3 => 0xc1bdceee
    case 4 => 0xf57c0faf
    case 5 => 0x4787c62a
    case 6 => 0xa8304613
    case 7 => 0xfd469501
    case 8 => 0x698098d8
    case 9 => 0x8b44f7af
    case 10 => 0xffff5bb1
    case 11 => 0x895cd7be
    case 12 => 0x6b901122
    case 13 => 0xfd987193
    case 14 => 0xa679438e
    case 15 => 0x49b40821
    case _ => 0
  }

  function T2(i: nat): Word {
    match i
    case 0 => 0xf61e2562
    case 1 => 0xc040b340
    case 2 => 0x265e5a51
    case 3 => 0xe9b6c7aa
    case 4 => 0xd62f105d
    case 5 => 0x02441453
    case 6 => 0xd8a1e681
    case 7 => 0xe7d3fbc8
    case 8 => 0x21e1cde6
    case 9 => 0xc33707d6
    case 10 => 0xf4d50d87
    case 11 => 0x455a14ed
    case 12 => 0xa9e3e905
    case 13 => 0xfcefa3f8
    case 14 => 0x676f02d9
    case 15 => 0x8d2a4c8a
    case _ => 0
  }

  function T3(i: nat): Word {
    match i
    case 0 => 0xfffa3942
    case 1 => 0x8771f681
    case 2 => 0x6d9d6122
    case 3 => 0xfde5380c
    case 4 => 0xa4beea44
    case 5 => 0x4bdecfa9
    case 6 => 0xf6bb4b60
    case 7 => 0xbebfbc70
    case 8 => 0x289b7ec6
    case 9 => 0xeaa127fa
    case 10 => 0xd4ef3085
    case 11 => 0x04881d05
    case 12 => 0xd9d4d039
    case 13 => 0xe6db99e5
    case 14 => 0x1fa27cf8
    case 15 => 0xc4ac5665
    case _ => 0
  }

  function T4(i: nat): Word {
    match i
    case 0 => 0xf4292244
    case 1 => 0x432aff97
    case 2 => 0xab9423a7
    case 3 => 0xfc93a039
    case 4 => 0x655b59c3
    case 5 => 0x8f0ccc92
    case 6 => 0xffeff47d
    case 7 => 0x85845dd1
    case 8 => 0x6fa87e4f
    case 9 => 0xfe2ce6e0
    case 10 => 0xa3014314
    case 11 => 0x4e0811a1
    case 12 => 0xf7537e82
    case 13 => 0xbd3af235
    case 14 => 0x2ad7d2bb
    case 15 => 0xeb86d391
    case _ => 0
  }

  /** Step i; the registers then change their roles. */
  function Step(i: nat, r: Regs, x: seq<Word>): Regs
    requires |x| == 16
  {
    Regs(r.d, Mix(Aux(i, r.b, r.c, r.d), r.a, r.b, x[Index(i)], Shift(i), T(i)), r.b, r.c)
  }

  /** The first n of the 64 steps. */
  function Steps(r: Regs, x: seq<Word>, n: nat): Regs
    requires |x| == 16
  {
    if n == 0 then r else Step(n - 1, Steps(r, x, n - 1), x)
  }

  /** Processing one block: four rounds of as many steps as there are words. */
  function Compress(r: Regs, x: seq<Word>): Regs
    requires |x| == 16
  {
    var s := Steps(r, x, 4 * |x|);
    Regs(Add(r.a, s.a), Add(r.b, s.b), Add(r.c, s.c), Add(r.d, s.d))
  }

  /** Step i adds word k and t, and rotates by s. */
  ghost predicate Row(i: nat, k: nat, s: nat, t: Word) {
    Index(i) == k && Shift(i) == s && T(i) == t
  }

  // ----- the source

  const S11 := 7
  const S12 := 12
  const S13 := 17
  const S14 := 22
  const S21 := 5
  const S22 := 9
  const S23 := 14
  const S24 := 20
  const S31 := 4
  const S32 := 11
  const S33 := 16
  const S34 := 23
  const S41 := 6
  const S42 := 10
  const S43 := 15
  const S44 := 21

  function FF(a: Word, b: Word, c: Word, d: Word, x: Word, s: nat, ac: Word): Word
    requires s <= 32
  {
    Mix(F(b, c, d), a, b, x, s, ac)
  }

  function GG(a: Word, b: Word, c: Word, d: Word, x: Word, s: nat, ac: Word): Word
    requires s <= 32
  {
    Mix(G(b, c, d), a, b, x, s, ac)
  }

  function HH(a: Word, b: Word, c: Word, d: Word, x: Word, s: nat, ac: Word): Word
    requires s <= 32
  {
    Mix(H(b, c, d), a, b, x, s, ac)
  }

  function II(a: Word, b: Word, c: Word, d: Word, x: Word, s: nat, ac: Word): Word
    requires s <= 32
  {
    Mix(I(b, c, d), a, b, x, s, ac)
  }

  lemma Step1(start: Regs, x: seq<Word>, i: nat, k: nat, s: nat, t: Word)
    requires |x| == 16 && 0 <= i < 16 && Row(i, k, s, t)
    ensures k < 16 && s <= 32
    ensures var r := Steps(start, x, i);
      Steps(start, x, i + 1) == Regs(r.d, FF(r.a, r.b, r.c, r.d, x[k], s, t), r.b, r.c)
  {}

  lemma Table1A()
    ensures Row(0, 0, 7, 0xd76aa478)
    ensures Row(1, 1, 12, 0xe8c7b756)
    ensures Row(2, 2, 17, 0x242070db)
    ensures Row(3, 3, 22, 0xc1bdceee)
  {}

  lemma Table1B()
    ensures Row(4, 4, 7, 0xf57c0faf)
    ensures Row(5, 5, 12, 0x4787c62a)
    ensures Row(6, 6, 17, 0xa8304613)
    ensures Row(7, 7, 22, 0xfd469501)
  {}

  lemma Table1C()
    ensures Row(8, 8, 7, 0x698098d8)
    ensures Row(9, 9, 12, 0x8b44f7af)
    ensures Row(10, 10, 17, 0xffff5bb1)
    ensures Row(11, 11, 22, 0x895cd7be)
  {}

  lemma Table1D()
    ensures Row(12, 12, 7, 0x6b901122)
    ensures Row(13, 13, 12, 0xfd987193)
    ensures Row(14, 14, 17, 0xa679438e)
    ensures Row(15, 15, 22, 0x49b40821)
  {}

  /** Round 1. */
  method Round1(start: Regs, r: Regs, x: seq<Word>) returns (q: Regs)
    requires |x| == 16 && r == Steps(start, x, 0)
    ensures q == Steps(start, x, 16)
  {
    hide FF, GG, HH, II, Steps, Step, Row, Aux;
    Table1A();
    Table1B();
    Table1C();
    Table1D();
    var a, b, c, d := r.a, r.b, r.c, r.d;
    Step1(start, x, 0, 0, S11, 0xd76aa478);
    a := FF(a, b, c, d, x[0], S11, 0xd76aa478);
    Step1(start, x, 1, 1, S12, 0xe8c7b756);
    d := FF(d, a, b, c, x[1], S12, 0xe8c7b756);
    Step1(start, x, 2, 2, S13, 0x242070db);
    c := FF(c, d, a, b, x[2], S13, 0x242070db);
    Step1(start, x, 3, 3, S14, 0xc1bdceee);
    b := FF(b, c, d, a, x[3], S14, 0xc1bdceee);
    Step1(start, x, 4, 4, S11, 0xf57c0faf);
    a := FF(a, b, c, d, x[4], S11, 0xf57c0faf);
    Step1(start, x, 5, 5, S12, 0x4787c62a);
    d := FF(d, a, b, c, x[5], S12, 0x4787c62a);
    Step1(start, x, 6, 6, S13, 0xa8304613);
    c := FF(c, d, a, b, x[6], S13, 0xa8304613);
    Step1(start, x, 7, 7, S14, 0xfd469501);
    b := FF(b, c, d, a, x[7], S14, 0xfd469501);
    Step1(start, x, 8, 8, S11, 0x698098d8);
    a := FF(a, b, c, d, x[8], S11, 0x698098d8);
    Step1(start, x, 9, 9, S12, 0x8b44f7af);
    d := FF(d, a, b, c, x[9], S12, 0x8b44f7af);
    Step1(start, x, 10, 10, S13, 0xffff5bb1);
    c := FF(c, d, a, b, x[10], S13, 0xffff5bb1);
    Step1(start, x, 11, 11, S14, 0x895cd7be);
    b := FF(b, c, d, a, x[11], S14, 0x895cd7be);
    Step1(start, x, 12, 12, S11, 0x6b901122);
    a := FF(a, b, c, d, x[12], S11, 0x6b901122);
    Step1(start, x, 13, 13, S12, 0xfd987193);
    d := FF(d, a, b, c, x[13], S12, 0xfd987193);
    Step1(start, x, 14, 14, S13, 0xa679438e);
    c := FF(c, d, a, b, x[14], S13, 0xa679438e);
    Step1(start, x, 15, 15, S14, 0x49b40821);
    b := FF(b, c, d, a, x[15], S14, 0x49b40821);
    q := Regs(a, b, c, d);
  }

  lemma Step2(start: Regs, x: seq<Word>, i: nat, k: nat, s: nat, t: Word)
    requires |x| == 16 && 16 <= i < 32 && Row(i, k, s, t)
    ensures k < 16 && s <= 32
    ensures var r := Steps(start, x, i);
      Steps(start, x, i + 1) == Regs(r.d, GG(r.a, r.b, r.c, r.d, x[k], s, t), r.b, r.c)
  {}

  lemma Table2A()
    ensures Row(16, 1, 5, 0xf61e2562)
    ensures Row(17, 6, 9, 0xc040b340)
    ensures Row(18, 11, 14, 0x265e5a51)
    ensures Row(19, 0, 20, 0xe9b6c7aa)
  {}

  lemma Table2B()
    ensures Row(20, 5, 5, 0xd62f105d)
    ensures Row(21, 10, 9, 0x02441453)
    ensures Row(22, 15, 14, 0xd8a1e681)
    ensures Row(23, 4, 20, 0xe7d3fbc8)
  {}

  lemma Table2C()
    ensures Row(24, 9, 5, 0x21e1cde6)
    ensures Row(25, 14, 9, 0xc33707d6)
    ensures Row(26, 3, 14, 0xf4d50d87)
    ensures Row(27, 8, 20, 0x455a14ed)
  {}

  lemma Table2D()
    ensures Row(28, 13, 5, 0xa9e3e905)
    ensures Row(29, 2, 9, 0xfcefa3f8)
    ensures Row(30, 7, 14, 0x676f02d9)
    ensures Row(31, 12, 20, 0x8d2a4c8a)
  {}

  /** Round 2. */
  method Round2(start: Regs, r: Regs, x: seq<Word>) returns (q: Regs)
    requires |x| == 16 && r == Steps(start, x, 16)
    ensures q == Steps(start, x, 32)
  {
    hide FF, GG, HH, II, Steps, Step, Row, Aux;
    Table2A();
    Table2B();
    Table2C();
    Table2D();
    var a, b, c, d := r.a, r.b, r.c, r.d;
    Step2(start, x, 16, 1, S21, 0xf61e2562);
    a := GG(a, b, c, d, x[1], S21, 0xf61e2562);
    Step2(start, x, 17, 6, S22, 0xc040b340);
    d := GG(d, a, b, c, x[6], S22, 0xc040b340);
    Step2(start, x, 18, 11, S23, 0x265e5a51);
    c := GG(c, d, a, b, x[11], S23, 0x265e5a51);
    Step2(start, x, 19, 0, S24, 0xe9b6c7aa);
    b := GG(b, c, d, a, x[0], S24, 0xe9b6c7aa);
    Step2(start, x, 20, 5, S21, 0xd62f105d);
    a := GG(a, b, c, d, x[5], S21, 0xd62f105d);
    Step2(start, x, 21, 10, S22, 0x02441453);
    d := GG(d, a, b, c, x[10], S22, 0x02441453);
    Step2(start, x, 22, 15, S23, 0xd8a1e681);
    c := GG(c, d, a, b, x[15], S23, 0xd8a1e681);
    Step2(start, x, 23, 4, S24, 0xe7d3fbc8);
    b := GG(b, c, d, a, x[4], S24, 0xe7d3fbc8);
    Step2(start, x, 24, 9, S21, 0x21e1cde6);
    a := GG(a, b, c, d, x[9], S21, 0x21e1cde6);
    Step2(start, x, 25, 14, S22, 0xc33707d6);
    d := GG(d, a, b, c, x[14], S22, 0xc33707d6);
    Step2(start, x, 26, 3, S23, 0xf4d50d87);
    c := GG(c, d, a, b, x[3], S23, 0xf4d50d87);
    Step2(start, x, 27, 8, S24, 0x455a14ed);
    b := GG(b, c, d, a, x[8], S24, 0x455a14ed);
    Step2(start, x, 28, 13, S21, 0xa9e3e905);
    a := GG(a, b, c, d, x[13], S21, 0xa9e3e905);
    Step2(start, x, 29, 2, S22, 0xfcefa3f8);
    d := GG(d, a, b, c, x[2], S22, 0xfcefa3f8);
    Step2(start, x, 30, 7, S23, 0x676f02d9);
    c := GG(c, d, a, b, x[7], S23, 0x676f02d9);
    Step2(start, x, 31, 12, S24, 0x8d2a4c8a);
    b := GG(b, c, d, a, x[12], S24, 0x8d2a4c8a);
    q := Regs(a, b, c, d);
  }

  lemma Step3(start: Regs, x: seq<Word>, i: nat, k: nat, s: nat, t: Word)
    requires |x| == 16 && 32 <= i < 48 && Row(i, k, s, t)
    ensures k < 16 && s <= 32
    ensures var r := Steps(start, x, i);
      Steps(start, x, i + 1) == Regs(r.d, HH(r.a, r.b, r.c, r.d, x[k], s, t), r.b, r.c)
  {}

  lemma Table3A()
    ensures Row(32, 5, 4, 0xfffa3942)
    ensures Row(33, 8, 11, 0x8771f681)
    ensures Row(34, 11, 16, 0x6d9d6122)
    ensures Row(35, 14, 23, 0xfde5380c)
  {}

  lemma Table3B()
    ensures Row(36, 1, 4, 0xa4beea44)
    ensures Row(37, 4, 11, 0x4bdecfa9)
    ensures Row(38, 7, 16, 0xf6bb4b60)
    ensures Row(39, 10, 23, 0xbebfbc70)
  {}

  lemma Table3C()
    ensures Row(40, 13, 4, 0x289b7ec6)
    ensures Row(41, 0, 11, 0xeaa127fa)
    ensures Row(42, 3, 16, 0xd4ef3085)
    ensures Row(43, 6, 23, 0x04881d05)
  {}

  lemma Table3D()
    ensures Row(44, 9, 4, 0xd9d4d039)
    ensures Row(45, 12, 11, 0xe6db99e5)
    ensures Row(46, 15, 16, 0x1fa27cf8)
    ensures Row(47, 2, 23, 0xc4ac5665)
  {}

  /** Round 3. */
  method Round3(start: Regs, r: Regs, x: seq<Word>) returns (q: Regs)
    requires |x| == 16 && r == Steps(start, x, 32)
    ensures q == Steps(start, x, 48)
  {
    hide FF, GG, HH, II, Steps, Step, Row, Aux;
    Table3A();
    Table3B();
    Table3C();
    Table3D();
    var a, b, c, d := r.a, r.b, r.c, r.d;
    Step3(start, x, 32, 5, S31, 0xfffa3942);
    a := HH(a, b, c, d, x[5], S31, 0xfffa3942);
    Step3(start, x, 33, 8, S32, 0x8771f681);
    d := HH(d, a, b, c, x[8], S32, 0x8771f681);
    Step3(start, x, 34, 11, S33, 0x6d9d6122);
    c := HH(c, d, a, b, x[11], S33, 0x6d9d6122);
    Step3(start, x, 35, 14, S34, 0xfde5380c);
    b := HH(b, c, d, a, x[14], S34, 0xfde5380c);
    Step3(start, x, 36, 1, S31, 0xa4beea44);
    a := HH(a, b, c, d, x[1], S31, 0xa4beea44);
    Step3(start, x, 37, 4, S32, 0x4bdecfa9);
    d := HH(d, a, b, c, x[4], S32, 0x4bdecfa9);
    Step3(start, x, 38, 7, S33, 0xf6bb4b60);
    c := HH(c, d, a, b, x[7], S33, 0xf6bb4b60);
    Step3(start, x, 39, 10, S34, 0xbebfbc70);
    b := HH(b, c, d, a, x[10], S34, 0xbebfbc70);
    Step3(start, x, 40, 13, S31, 0x289b7ec6);
    a := HH(a, b, c, d, x[13], S31, 0x289b7ec6);
    Step3(start, x, 41, 0, S32, 0xeaa127fa);
    d := HH(d, a, b, c, x[0], S32, 0xeaa127fa);
    Step3(start, x, 42, 3, S33, 0xd4ef3085);
    c := HH(c, d, a, b, x[3], S33, 0xd4ef3085);
    Step3(start, x, 43, 6, S34, 0x04881d05);
    b := HH(b, c, d, a, x[6], S34, 0x04881d05);
    Step3(start, x, 44, 9, S31, 0xd9d4d039);
    a := HH(a, b, c, d, x[9], S31, 0xd9d4d039);
    Step3(start, x, 45, 12, S32, 0xe6db99e5);
    d := HH(d, a, b, c, x[12], S32, 0xe6db99e5);
    Step3(start, x, 46, 15, S33, 0x1fa27cf8);
    c := HH(c, d, a, b, x[15], S33, 0x1fa27cf8);
    Step3(start, x, 47, 2, S34, 0xc4ac5665);
    b := HH(b, c, d, a, x[2], S34, 0xc4ac5665);
    q := Regs(a, b, c, d);
  }

  lemma Step4(start: Regs, x: seq<Word>, i: nat, k: nat, s: nat, t: Word)
    requires |x| == 16 && 48 <= i < 64 && Row(i, k, s, t)
    ensures k < 16 && s <= 32
    ensures var r := Steps(start, x, i);
      Steps(start, x, i + 1) == Regs(r.d, II(r.a, r.b, r.c, r.d, x[k], s, t), r.b, r.c)
  {}

  lemma Table4A()
    ensures Row(48, 0, 6, 0xf4292244)
    ensures Row(49, 7, 10, 0x432aff97)
    ensures Row(50, 14, 15, 0xab9423a7)
    ensures Row(51, 5, 21, 0xfc93a039)
  {}

  lemma Table4B()
    ensures Row(52, 12, 6, 0x655b59c3)
    ensures Row(53, 3, 10, 0x8f0ccc92)
    ensures Row(54, 10, 15, 0xffeff47d)
    ensures Row(55, 1, 21, 0x85845dd1)
  {}

  lemma Table4C()
    ensures Row(56, 8, 6, 0x6fa87e4f)
    ensures Row(57, 15, 10, 0xfe2ce6e0)
    ensures Row(58, 6, 15, 0xa3014314)
    ensures Row(59, 13, 21, 0x4e0811a1)
  {}

  lemma Table4D()
    ensures Row(60, 4, 6, 0xf7537e82)
    ensures Row(61, 11, 10, 0xbd3af235)
    ensures Row(62, 2, 15, 0x2ad7d2bb)
    ensures Row(63, 9, 21, 0xeb86d391)
  {}

  /** Round 4. */
  method Round4(start: Regs, r: Regs, x: seq<Word>) returns (q: Regs)
    requires |x| == 16 && r == Steps(start, x, 48)
    ensures q == Steps(start, x, 64)
  {
    hide FF, GG, HH, II, Steps, Step, Row, Aux;
    Table4A();
    Table4B();
    Table4C();
    Table4D();
    var a, b, c, d := r.a, r.b, r.c, r.d;
    Step4(start, x, 48, 0, S41, 0xf4292244);
    a := II(a, b, c, d, x[0], S41, 0xf4292244);
    Step4(start, x, 49, 7, S42, 0x432aff97);
    d := II(d, a, b, c, x[7], S42, 0x432aff97);
    Step4(start, x, 50, 14, S43, 0xab9423a7);
    c := II(c, d, a, b, x[14], S43, 0xab9423a7);
    Step4(start, x, 51, 5, S44, 0xfc93a039);
    b := II(b, c, d, a, x[5], S44, 0xfc93a039);
    Step4(start, x, 52, 12, S41, 0x655b59c3);
    a := II(a, b, c, d, x[12], S41, 0x655b59c3);
    Step4(start, x, 53, 3, S42, 0x8f0ccc92);
    d := II(d, a, b, c, x[3], S42, 0x8f0ccc92);
    Step4(start, x, 54, 10, S43, 0xffeff47d);
    c := II(c, d, a, b, x[10], S43, 0xffeff47d);
    Step4(start, x, 55, 1, S44, 0x85845dd1);
    b := II(b, c, d, a, x[1], S44, 0x85845dd1);
    Step4(start, x, 56, 8, S41, 0x6fa87e4f);
    a := II(a, b, c, d, x[8], S41, 0x6fa87e4f);
    Step4(start, x, 57, 15, S42, 0xfe2ce6e0);
    d := II(d, a, b, c, x[15], S42, 0xfe2ce6e0);
    Step4(start, x, 58, 6, S43, 0xa3014314);
    c := II(c, d, a, b, x[6], S43, 0xa3014314);
    Step4(start, x, 59, 13, S44, 0x4e0811a1);
    b := II(b, c, d, a, x[13], S44, 0x4e0811a1);
    Step4(start, x, 60, 4, S41, 0xf7537e82);
    a := II(a, b, c, d, x[4], S41, 0xf7537e82);
    Step4(start, x, 61, 11, S42, 0xbd3af235);
    d := II(d, a, b, c, x[11], S42, 0xbd3af235);
    Step4(start, x, 62, 2, S43, 0x2ad7d2bb);
    c := II(c, d, a, b, x[2], S43, 0x2ad7d2bb);
    Step4(start, x, 63, 9, S44, 0xeb86d391);
    b := II(b, c, d, a, x[9], S44, 0xeb86d391);
    q := Regs(a, b, c, d);
  }

  /** MD5::transform, after the block was decoded into words. */
  method Transform(state: Regs, x: seq<Word>) returns (q: Regs)
    requires |x| == 16
    ensures q == Compress(state, x)
  {
    hide Steps, Add;
    StepsZero(state, x);
    var r := Round1(state, state, x);
    r := Round2(state, r, x);
    r := Round3(state, r, x);
    r := Round4(state, r, x);
    q := Regs(Add(state.a, r.a), Add(state.b, r.b), Add(state.c, r.c), Add(state.d, r.d));
  }

  lemma StepsZero(r: Regs, x: seq<Word>)
    requires |x| == 16
    ensures Steps(r, x, 0) == r
  {}
}
