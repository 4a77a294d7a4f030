/** Small value types shared by the game models. */
module Basics {

  /** A value that may be missing: the source's `null` / "not found". */
  datatype Option<T> = None | Some(value: T)

  function Max(a: int, b: int): (m: int)
    ensures m >= a && m >= b && (m == a || m == b)
  {
    if a >= b then a else b
  }
}
