/** Fixed-width machine integers as subsets of `int`, and the conversions the
    Rust code performs on them: `as` casts between widths (two's-complement
    truncation) and the truncating `/` and `%` of signed integers. Overflowing
    arithmetic is written out with the wrap functions (release-build behaviour). */
module Ints {
  const TWO_16: int := 0x1_0000
  const TWO_32: int := 0x1_0000_0000
  const TWO_64: int := 0x1_0000_0000_0000_0000

  type int32 = x: int | -0x8000_0000 <= x < 0x8000_0000
  type int64 = x: int | -0x8000_0000_0000_0000 <= x < 0x8000_0000_0000_0000
  type uint16 = x: int | 0 <= x < 0x1_0000
  type uint32 = x: int | 0 <= x < 0x1_0000_0000
  type uint64 = x: int | 0 <= x < 0x1_0000_0000_0000_0000

  predicate IsInt32(x: int) { -0x8000_0000 <= x < 0x8000_0000 }
  predicate IsInt64(x: int) { -0x8000_0000_0000_0000 <= x < 0x8000_0000_0000_0000 }

  /** `x as u16`: the unique 16-bit value congruent to `x`. */
  function WrapU16(x: int): (r: uint16)
    ensures (x - r) % TWO_16 == 0
    ensures 0 <= x < TWO_16 ==> r == x
  {
    x % TWO_16
  }

  /** `x as u32`: the unique unsigned 32-bit value congruent to `x`. */
  function WrapU32(x: int): (r: uint32)
    ensures (x - r) % TWO_32 == 0
    ensures 0 <= x < TWO_32 ==> r == x
  {
    x % TWO_32
  }

  /** `x as u64`: the unique unsigned 64-bit value congruent to `x`. */
  function WrapU64(x: int): (r: uint64)
    ensures (x - r) % TWO_64 == 0
    ensures 0 <= x < TWO_64 ==> r == x
  {
    x % TWO_64
  }

  /** `x as i32`, or an `i32` operation that overflows: the unique signed
      32-bit value congruent to `x`. */
  function WrapI32(x: int): (r: int32)
    ensures (x - r) % TWO_32 == 0
    ensures IsInt32(x) ==> r == x
  {
    (x + 0x8000_0000) % TWO_32 - 0x8000_0000
  }

  /** `x as i64`, or an `i64` operation that overflows: the unique signed
      64-bit value congruent to `x`. */
  function WrapI64(x: int): (r: int64)
    ensures (x - r) % TWO_64 == 0
    ensures IsInt64(x) ==> r == x
  {
    (x + 0x8000_0000_0000_0000) % TWO_64 - 0x8000_0000_0000_0000
  }

  /** Two values congruent modulo 2^64 wrap to the same signed 64-bit value. */
  lemma WrapI64Congruent(x: int, y: int)
    requires (x - y) % TWO_64 == 0
    ensures WrapI64(x) == WrapI64(y)
  {
    var k := (x - y) / TWO_64;
    assert x + 0x8000_0000_0000_0000 == (y + 0x8000_0000_0000_0000) + k * TWO_64;
  }

  /** Signed `a / b` of the source language: the quotient rounded toward zero
      (Dafny's own `/` rounds toward negative infinity for b > 0). */
  function TruncDiv(a: int, b: int): (q: int)
    requires b > 0
    ensures a >= 0 ==> q * b <= a < q * b + b
    ensures a < 0 ==> q * b - b < a <= q * b
    ensures a >= 0 ==> 0 <= q <= a
    ensures a < 0 ==> a <= q <= 0
  {
    if a >= 0 then DivBounds(a, b); a / b else DivBounds(-a, b); -((-a) / b)
  }

  /** Euclidean division of a natural number by a positive one. */
  lemma DivBounds(n: nat, b: int)
    requires b > 0
    ensures (n / b) * b <= n < (n / b) * b + b
    ensures 0 <= n / b <= n
  {
    var q, r := n / b, n % b;
    assert n == q * b + r;
    assert 0 <= r < b;
    assert q >= 0;
    if q > n {
      MulMonotone(q, b);
    }
  }

  lemma MulMonotone(q: nat, b: int)
    requires b >= 1
    ensures q * b >= q
  {
  }

  /** Signed `a % b` of the source language: the remainder takes the sign of `a`. */
  function TruncRem(a: int, b: int): (r: int)
    requires b > 0
    ensures a == TruncDiv(a, b) * b + r
    ensures a >= 0 ==> 0 <= r < b
    ensures a < 0 ==> -b < r <= 0
  {
    a - TruncDiv(a, b) * b
  }
}
