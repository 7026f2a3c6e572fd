/**
 The two pieces of Rust integer semantics the evaluation depends on: `/` on
 signed integers truncates toward zero, and `as i8` keeps the low eight bits
 of a count as a two's-complement value.
 */
module RustInt {

  /** An unsigned 8-bit value, the type of search depths. */
  type U8 = x: int | 0 <= x < 256

  /** A product of a positive and a negative factor is at most the negated positive one. */
  lemma {:induction false} MulNegative(d: int, q: int)
    requires d > 0 && q < 0
    decreases -q
    ensures d * q <= -d
  {
    if q < -1 {
      MulNegative(d, q + 1);
      assert d * q == d * (q + 1) - d;
    }
  }

  /** Dafny's `/` on a natural numerator: the quotient is the floor, as in Rust. */
  lemma DivBounds(n: int, d: int)
    requires n >= 0 && d > 0
    ensures 0 <= n / d && (n / d) * d <= n < (n / d) * d + d
  {
    var q, m := n / d, n % d;
    assert n == d * q + m && 0 <= m < d;
    if q < 0 {
      MulNegative(d, q);
      assert false;
    }
    assert q * d == d * q;
  }

  /** Rust's signed division by a positive divisor: the quotient is rounded toward zero. */
  function TruncDiv(a: int, d: int): (q: int)
    requires d > 0
    ensures a >= 0 ==> 0 <= q && q * d <= a < q * d + d
    ensures a < 0 ==> q <= 0 && q * d - d < a <= q * d
  {
    if a >= 0 then
      DivBounds(a, d);
      a / d
    else
      DivBounds(-a, d);
      assert -((-a) / d) * d == -(((-a) / d) * d);
      -((-a) / d)
  }

  /** `n as i8`: the unique value in the i8 range that agrees with `n` modulo 256. */
  function CastI8(n: int): (v: int)
    ensures -128 <= v < 128
    ensures (n - v) % 256 == 0
    ensures -128 <= n < 128 ==> v == n
  {
    var m := n % 256;
    if m >= 128 then m - 256 else m
  }
}
