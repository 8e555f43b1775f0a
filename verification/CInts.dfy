/** The arithmetic of C. */
module CInts {
  const TWO_31: nat := 0x8000_0000
  const TWO_32: nat := 0x1_0000_0000
  const TWO_63: nat := 0x8000_0000_0000_0000
  const TWO_64: nat := 0x1_0000_0000_0000_0000
  const INT_MIN: int := -0x8000_0000
  const INT_MAX: nat := 0x7FFF_FFFF
  const SSIZE_MIN: int := -0x8000_0000_0000_0000
  const SSIZE_MAX: nat := 0x7FFF_FFFF_FFFF_FFFF
  const SIZE_MAX: nat := 0xFFFF_FFFF_FFFF_FFFF

  function Min(a: int, b: int): int {
    if a < b then a else b
  }

  function Max(a: int, b: int): int {
    if a < b then b else a
  }

  /** Division truncates. */
  function Quotient(a: int, n: nat): int
    requires n > 0
  {
    if a >= 0 then a / n else -((-a) / n)
  }

  /** Conversion to size_t. */
  function AsSize(x: int): (r: nat)
    ensures r <= SIZE_MAX
  {
    x % TWO_64
  }

  /** Conversion to int. */
  function AsInt(x: int): int {
    var m := x % TWO_32;
    if m >= TWO_31 then m - TWO_32 else m
  }

  lemma MulSum(a: nat, b: nat, s: nat)
    ensures (a + b) * s == a * s + b * s
  {}

  lemma MulNat(a: nat, s: nat)
    ensures a * s >= 0
  {}

  lemma MulLess(m: nat, n: nat, s: nat)
    requires m <= n
    ensures m * s <= n * s && (m < n ==> m * s + s <= n * s)
  {
    MulSum(m, n - m, s);
    MulNat(n - m, s);
    if m < n {
      MulSum(1, n - m - 1, s);
      MulNat(n - m - 1, s);
    }
  }
}
