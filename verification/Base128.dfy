/** Numbers in groups of seven bits, low groups first; the high bit of a byte says that more follow. */
module Base128 {
  import opened Bytes
  import opened Options

  function SevenBits(n: nat): (b: bytes)
    ensures |b| > 0
  {
    if n < 128 then [n as byte] else [(n % 128 + 128) as byte] + SevenBits(n / 128)
  }

  /** One more byte of an encoding: what is left to encode follows it. */
  lemma SevenBitsStep(a: bytes, b: bytes, n: nat, lower: nat)
    requires lower == n % 128 + (if n / 128 != 0 then 128 else 0) && b == a + [lower as byte]
    ensures n / 128 == 0 ==> a + SevenBits(n) == b
    ensures n / 128 != 0 ==> a + SevenBits(n) == b + SevenBits(n / 128) && |b + SevenBits(n / 128)| > |b|
  {}

  function Pow128(n: nat): (p: nat)
    ensures p > 0
  {
    if n == 0 then 1 else 128 * Pow128(n - 1)
  }

  /** v shifted left by n groups of seven bits. */
  function Shifted(v: nat, n: nat): nat {
    Pow128(n) * v
  }

  /** The first group, and the others. */
  lemma ShiftedGroups(v: nat, x: nat, n: nat)
    ensures Shifted(v + 128 * x, n) == Shifted(v, n) + Shifted(x, n + 1)
  {
    var p := Pow128(n);
    calc {
      p * (v + 128 * x);
      p * v + p * (128 * x);
      p * v + 128 * p * x;
    }
  }

  lemma NotShifted(v: nat)
    ensures Shifted(v, 0) == v
  {}

  /** A decoded number, and how many bytes encode it. */
  datatype Decoded = Decoded(value: nat, len: nat)

  /** What is known after count bytes, and what the rest says. */
  ghost function Combine(known: nat, count: nat, r: Option<Decoded>): Option<Decoded> {
    if r.None? then None else Some(Decoded(known + Shifted(r.value.value, count), count + r.value.len))
  }

  lemma CombineStart(r: Option<Decoded>)
    ensures Combine(0, 0, r) == r
  {
    if r.Some? {
      NotShifted(r.value.value);
    }
  }

  /** Taking the first group to what is known. */
  lemma CombineNext(known: nat, count: nat, v: nat, r: Option<Decoded>)
    ensures Combine(known, count, if r.None? then None else Some(Decoded(v + 128 * r.value.value, 1 + r.value.len))) ==
      Combine(known + Shifted(v, count), count + 1, r)
  {
    hide Shifted;
    if r.Some? {
      ShiftedGroups(v, r.value.value, count);
    }
  }

  lemma CombineLast(known: nat, count: nat, v: nat)
    ensures Combine(known, count, Some(Decoded(v, 1))) == Some(Decoded(known + Shifted(v, count), count + 1))
  {}

  lemma CombineNone(known: nat, count: nat, r: Option<Decoded>)
    ensures r.None? ==> Combine(known, count, r).None?
  {}
}
