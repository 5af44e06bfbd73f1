/**
 * The JavaScript values the snap-point engine manipulates.
 *
 * A hook argument that may be omitted is an `Option`; a value that may be
 * `undefined` or `null` (an array read past its end, the result of
 * `??`-able lookups) is a `Value`; a JavaScript number is a `Float`, whose
 * finite values are exact reals: rounding and the sign of zero are not
 * modelled, but `NaN` and the infinities are, because the engine's
 * out-of-range reads and divisions produce them.
 */
module Js {

  datatype Option<+T> = None | Some(value: T)

  /** A JavaScript value that may also be `undefined` or `null`. */
  datatype Value<+T> = Undefined | Null | Val(v: T)

  /** A JavaScript number. */
  datatype Float = NaN | Inf(negative: bool) | Fin(r: real)

  /** Numeric coercion, as `-`, `+` and `/` apply it: `undefined` is NaN, `null` is 0. */
  function ToNumber(x: Value<Float>): Float
  {
    match x
    case Undefined => NaN
    case Null => Fin(0.0)
    case Val(f) => f
  }

  function Neg(a: Float): Float
  {
    match a
    case NaN => NaN
    case Inf(n) => Inf(!n)
    case Fin(x) => Fin(-x)
  }

  function Add(a: Float, b: Float): Float
  {
    match (a, b)
    case (NaN, _) => NaN
    case (_, NaN) => NaN
    case (Inf(n), Inf(m)) => if n == m then Inf(n) else NaN
    case (Inf(n), Fin(_)) => Inf(n)
    case (Fin(_), Inf(m)) => Inf(m)
    case (Fin(x), Fin(y)) => Fin(x + y)
  }

  function Sub(a: Float, b: Float): Float
  {
    Add(a, Neg(b))
  }

  /** `Math.abs` */
  function Abs(a: Float): Float
  {
    match a
    case NaN => NaN
    case Inf(_) => Inf(false)
    case Fin(x) => Fin(AbsReal(x))
  }

  /** `/`; a zero divisor is taken to be +0 (the engine only divides by `Math.abs(...)`). */
  function Div(a: Float, b: Float): Float
  {
    match (a, b)
    case (NaN, _) => NaN
    case (_, NaN) => NaN
    case (Inf(_), Inf(_)) => NaN
    case (Inf(n), Fin(y)) => Inf(n != (y < 0.0))
    case (Fin(_), Inf(_)) => Fin(0.0)
    case (Fin(x), Fin(y)) =>
      if y != 0.0 then Fin(x / y)
      else if x == 0.0 then NaN
      else Inf(x < 0.0)
  }

  /** `<`: false whenever NaN is involved. */
  predicate Less(a: Float, b: Float)
  {
    match (a, b)
    case (NaN, _) => false
    case (_, NaN) => false
    case (Inf(n), Inf(m)) => n && !m
    case (Inf(n), Fin(_)) => n
    case (Fin(_), Inf(m)) => !m
    case (Fin(x), Fin(y)) => x < y
  }

  function AbsReal(x: real): real
  {
    if x < 0.0 then -x else x
  }
}
