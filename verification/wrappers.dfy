/** Java's `null` and exceptions, as values. */
module Wrappers {

  /** A reference that may be `null`. */
  datatype Option<+T> = None | Some(value: T)

  /** The exceptions the modelled code throws. */
  datatype Error =
    | IllegalArgument   // java.lang.IllegalArgumentException
    | NoSuchElement     // java.util.NoSuchElementException
    | Runtime           // java.lang.RuntimeException

  /** The outcome of a call that returns a value or throws. */
  datatype Result<+T> = Success(value: T) | Failure(error: Error)
}

/** Java `int` operators whose meaning differs from Dafny's on negative operands. */
module JavaInt {

  function Abs(x: int): nat { if x < 0 then -x else x }

  function Min(a: int, b: int): int { if a <= b then a else b }

  function Max(a: int, b: int): int { if a >= b then a else b }

  /** Java's `/`: the quotient is truncated toward zero. */
  function Div(a: int, b: int): int
    requires b > 0
  {
    if a >= 0 then a / b else -((-a) / b)
  }

  /** Java's `%`: the remainder takes the sign of the dividend. */
  function Rem(a: int, b: int): int
    requires b > 0
  {
    if a >= 0 then a % b else -((-a) % b)
  }

  /** Java's division identity `(a / b) * b + a % b == a`, and the range of `%`. */
  lemma DivRem(a: int, b: int)
    requires b > 0
    ensures Div(a, b) * b + Rem(a, b) == a
    ensures -b < Rem(a, b) < b
    ensures a >= 0 ==> Div(a, b) == a / b && Rem(a, b) == a % b
  {
    if a < 0 {
      var q, r := (-a) / b, (-a) % b;
      assert q * b + r == -a;
    }
  }
}
