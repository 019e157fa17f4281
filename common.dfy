/** Small shared vocabulary: the source's `null`/`undefined` results, its thrown errors, and the
    `Math.max`/`Math.min`/`Math.abs` helpers on exact reals. */
module Common {

  datatype Option<T> = None | Some(value: T)

  /** A computed value, or the error the source would have thrown. */
  datatype Result<T, E> = Ok(value: T) | Err(error: E)

  /** Success without a value, or the error the source would have thrown. */
  datatype Outcome<E> = Pass | Fail(error: E)

  function Max(a: real, b: real): (r: real)
    ensures r >= a && r >= b && (r == a || r == b)
  {
    if a < b then b else a
  }

  function Min(a: real, b: real): (r: real)
    ensures r <= a && r <= b && (r == a || r == b)
  {
    if a < b then a else b
  }

  function Abs(x: real): (r: real)
    ensures r >= 0.0 && (r == x || r == -x)
  {
    if x < 0.0 then -x else x
  }
}
