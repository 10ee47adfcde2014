/** The integer arithmetic of JavaScript that the timing code relies on,
    written out for integer-valued numbers: `Math.floor(a / b)`, the
    truncating `%` operator, `Math.max` and `Math.ceil(a / b)`. */
module JsNumber {

  /** `Math.floor(a / b)` for a positive divisor. */
  function FloorDiv(a: int, b: int): (q: int)
    requires b > 0
    ensures q * b <= a < q * b + b
  {
    a / b
  }

  /** JavaScript's `a % b`: the quotient is truncated toward zero, so the
      remainder takes the sign of the dividend (unlike Dafny's `%`). */
  function Rem(a: int, b: int): (r: int)
    requires b > 0
    ensures a >= 0 ==> 0 <= r < b
    ensures a < 0 ==> -b < r <= 0
    ensures a >= 0 ==> a == (a / b) * b + r
    ensures a < 0 ==> a == -((-a) / b) * b + r
  {
    if a >= 0 then a % b
    else
      var r := -((-a) % b);
      assert -a == ((-a) / b) * b + (-a) % b;
      r
  }

  /** `Math.max(a, b)`. */
  function Max(a: int, b: int): (m: int)
    ensures m >= a && m >= b
    ensures m == a || m == b
  {
    if a >= b then a else b
  }

  /** `Math.ceil(a / b)` for a positive divisor. */
  function CeilDiv(a: int, b: int): (q: int)
    requires b > 0
    ensures q * b - b < a <= q * b
  {
    (a + b - 1) / b
  }
}
