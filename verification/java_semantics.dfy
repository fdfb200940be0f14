/** Java arithmetic and failure behaviour that the sandpile grid relies on.

    Java's integer `/` truncates toward zero and `%` takes the sign of the
    dividend (section 15.17 of The Java Language Specification), whereas
    Dafny's `/` and `%` are Euclidean. The two agree only for non-negative
    dividends, so the grid code is modelled with the Java operators below.
    Runtime exceptions that the grid can raise are reported as `Err` values.
 */
module JavaSemantics {

  /** The unchecked exceptions the grid's constructors and accessors can raise. */
  datatype Error = NegativeArraySize | IndexOutOfBounds

  /** A value, or the exception that aborted its computation. */
  datatype Result<+T> = Ok(value: T) | Err(error: Error)

  /** Java's `a / d` for a positive divisor: the quotient rounded toward zero. */
  function Div(a: int, d: int): (q: int)
    requires d > 0
    ensures 0 <= a ==> 0 <= q && 0 <= a - d * q < d
    ensures a < 0 ==> q <= 0 && -d < a - d * q <= 0
  {
    if a >= 0 then
      NatDiv(a, d);
      a / d
    else
      NatDiv(-a, d);
      -((-a) / d)
  }

  /** Dafny's `/` on a non-negative dividend leaves a remainder in `[0, d)`. */
  lemma NatDiv(n: int, d: int)
    requires 0 <= n && 0 < d
    ensures 0 <= n / d && 0 <= n - d * (n / d) < d
  {
    var q, r := n / d, n % d;
    assert n == d * q + r && 0 <= r < d;
  }

  /** Java's `a % d` for a positive divisor: the remainder of the truncating
      division, carrying the sign of `a`. */
  function Rem(a: int, d: int): (r: int)
    requires d > 0
    ensures r == a - d * Div(a, d)
    ensures 0 <= a ==> 0 <= r < d
    ensures a < 0 ==> -d < r <= 0
  {
    if a >= 0 then a % d else -((-a) % d)
  }
}
