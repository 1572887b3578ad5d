/** Machine words of the C sources, as bounded integers with explicit wrap-around. */
module Words {

  const TWO_32: int := 0x1_0000_0000
  const TWO_64: int := 0x1_0000_0000_0000_0000
  const TWO_63: int := 0x8000_0000_0000_0000

  type u32 = x: int | 0 <= x < 0x1_0000_0000
  type u64 = x: int | 0 <= x < 0x1_0000_0000_0000_0000
  type i64 = x: int | -0x8000_0000_0000_0000 <= x < 0x8000_0000_0000_0000

  /** What an unsigned 64-bit operation leaves of its mathematical result. */
  function Wrap64(x: int): u64 {
    x % TWO_64
  }

  lemma WrapSmall(x: int)
    requires 0 <= x < TWO_64
    ensures Wrap64(x) == x
  {}

  /** The cast (int64_t)x. */
  function ToI64(x: u64): i64 {
    if x < TWO_63 then x else x - TWO_64
  }

  function Abs(x: int): nat {
    if x < 0 then -x else x
  }

  /** C's `/` on signed operands truncates toward zero. */
  function TruncDiv(a: int, b: int): int
    requires b != 0
  {
    if a >= 0 then
      if b > 0 then a / b else -(a / -b)
    else
      if b > 0 then -(-a / b) else -a / -b
  }

  /** C's `%`, whose sign follows the dividend. */
  function TruncMod(a: int, b: int): int
    requires b != 0
  {
    a - TruncDiv(a, b) * b
  }

  /** Which determines both: the remainder is smaller than the divisor and has the dividend's sign. */
  lemma TruncatedDivision(a: int, b: int)
    requires b != 0
    ensures a == TruncDiv(a, b) * b + TruncMod(a, b)
    ensures Abs(TruncMod(a, b)) < Abs(b) && (a >= 0 ==> TruncMod(a, b) >= 0) && (a <= 0 ==> TruncMod(a, b) <= 0)
  {
    var m, d := Abs(a), Abs(b);
    assert m == m / d * d + m % d;
  }

  /** The cast keeps the value modulo 2^64. */
  lemma CastKeepsResidue(x: u64)
    ensures ToI64(x) == x || ToI64(x) == x - 0x1_0000_0000_0000_0000
    ensures Wrap64(ToI64(x)) == x
  {}
}
