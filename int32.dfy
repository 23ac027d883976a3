/** Rust `i32` arithmetic as the source uses it: the value range, the
    truncating `/` and `%` operators, and the saturating float-to-int cast. */
module Int32 {
  const I32Min: int := -0x8000_0000
  const I32Max: int := 0x7fff_ffff

  predicate IsI32(x: int) {
    I32Min <= x <= I32Max
  }

  /** Rust `a / b` for a positive divisor: the quotient rounds toward zero,
      so it agrees with Dafny's Euclidean `/` only on a non-negative `a`. */
  function TruncDiv(a: int, b: int): (q: int)
    requires b > 0
    ensures a >= 0 ==> q == a / b
    ensures a < 0 ==> q <= 0 && a <= b * q < a + b
  {
    if a >= 0 then a / b else -((-a) / b)
  }

  /** Rust `a % b` for a positive divisor: the remainder takes the sign of
      `a`, and with the truncating quotient it rebuilds `a`. */
  function TruncMod(a: int, b: int): (r: int)
    requires b > 0
    ensures a >= 0 ==> r == a % b
    ensures a < 0 ==> -b < r <= 0
    ensures a == b * TruncDiv(a, b) + r
  {
    if a >= 0 then a % b else -((-a) % b)
  }

  /** Rust `x as i32` from an integral float: out-of-range values saturate. */
  function SaturateI32(k: int): (r: int)
    ensures IsI32(r)
    ensures IsI32(k) ==> r == k
    ensures k < I32Min ==> r == I32Min
    ensures k > I32Max ==> r == I32Max
  {
    if k < I32Min then I32Min else if k > I32Max then I32Max else k
  }
}
