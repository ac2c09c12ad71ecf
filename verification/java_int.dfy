/**
 The slice of Java's 32-bit `int` arithmetic that the face-stylisation code
 relies on: the range of `int`, two's-complement wrap-around on `+`, and
 division that truncates toward zero (Dafny's own `/` is Euclidean).
 */
module JavaInt {

  const MIN: int := -0x8000_0000
  const MAX: int := 0x7FFF_FFFF
  const MODULUS: int := 0x1_0000_0000

  /** A value of Java type `int`. */
  type int32 = x: int | MIN <= x <= MAX

  /** Narrowing of a mathematical integer to 32 bits, as the JVM does on overflow. */
  function Wrap(v: int): (r: int32)
    ensures (r - v) % MODULUS == 0
    ensures MIN <= v <= MAX ==> r == v
  {
    (v - MIN) % MODULUS + MIN
  }

  /** Java `a + b` on two `int`s. */
  function Add(a: int32, b: int32): (r: int32)
    ensures MIN <= a + b <= MAX ==> r == a + b
    ensures a + b > MAX ==> r == a + b - MODULUS
    ensures a + b < MIN ==> r == a + b + MODULUS
  {
    Wrap(a + b)
  }

  /** Java `a / d` on `int`s for a positive divisor: the quotient is rounded toward zero. */
  function Div(a: int32, d: int32): (q: int32)
    requires d > 0
    ensures 0 <= a ==> 0 <= q && q * d <= a < q * d + d
    ensures a < 0 ==> q <= 0 && q * d - d < a <= q * d
  {
    if a >= 0 then
      DivBound(a, d);
      a / d
    else
      var n: int := -(a as int);
      DivBound(n, d);
      -(n / d)
  }

  /** A non-negative dividend never grows under division by a positive divisor. */
  lemma DivBound(n: int, d: int)
    requires n >= 0 && d > 0
    ensures 0 <= n / d <= n
  {
    var q := n / d;
    assert q * d <= n;
    MulGrows(q, d);
  }

  lemma MulGrows(q: int, d: int)
    requires q >= 0 && d >= 1
    ensures q * d >= q
  {
  }

  /** For non-negative operands Java's division and Dafny's coincide. */
  lemma DivAgreesOnNaturals(a: int32, d: int32)
    requires a >= 0 && d > 0
    ensures Div(a, d) == a / d
  {
  }

  /** For a negative dividend Java rounds toward zero: -3 / 2 is -1. */
  lemma DivTruncatesTowardZero()
    ensures Div(-3, 2) == -1
  {
  }
}
