/**
  What several modules share.
 */
module Shared {
  datatype Option<T> = None | Some(value: T)

  function RotateRight(x: bv32, n: bv32): (r: bv32)
    requires n < 32
  {
    if n == 0 then x else (x >> n) | (x << (32 - n))
  }
}
