/** Results that may be absent or may fail, and the smaller and the larger of two numbers. */
module Wrappers {

  datatype Option<+T> = None | Some(value: T)

  datatype Result<+T, +E> = Ok(value: T) | Err(error: E)

  function Min(a: nat, b: nat): nat
  {
    if a < b then a else b
  }

  function Max(a: nat, b: nat): nat
  {
    if a < b then b else a
  }
}
