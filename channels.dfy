/** The four channels every converter reads from and writes to, and the
    failure values that stand for the exceptions the converters raise. */
module Channels {

  /** The red, green, blue and alpha channels of a Colour, in 8-bit units
      (0 - 255 by convention, never clamped). */
  datatype Rgba = Rgba(r: real, g: real, b: real, a: real)

  /** Why a conversion could not produce a value. */
  datatype Failure =
    | EmptyHexField     // `int('', 16)` on an empty slice of a hex string
    | InvalidHexDigit   // `int(s, 16)` on a slice holding a '#'
    | DivisionByZero    // a float division whose divisor is 0

  /** A value, or the failure that Python reports by raising. */
  datatype Result<T> = Ok(value: T) | Fail(why: Failure) {
    predicate IsFailure() {
      Fail?
    }

    function PropagateFailure<U>(): Result<U>
      requires Fail?
    {
      Fail(why)
    }

    function Extract(): T
      requires Ok?
    {
      value
    }
  }

  /** True of a channel holding a whole number. */
  predicate IsIntegral(x: real) {
    x == x.Floor as real
  }

  /** True of a channel holding a whole number in 0 - 255. */
  predicate IsByte(x: real) {
    0.0 <= x <= 255.0 && IsIntegral(x)
  }

  /** True of a colour whose r, g and b lie in 0 - 255 (alpha is not read). */
  predicate InGamut(c: Rgba) {
    0.0 <= c.r <= 255.0 && 0.0 <= c.g <= 255.0 && 0.0 <= c.b <= 255.0
  }
}
