/** Failure-carrying result types used for the library's exceptions. */
module Wrappers {

  datatype Option<+T> = None | Some(value: T)

  /** `Err` stands for a thrown exception of the given kind. */
  datatype Result<+R, +E> = Ok(value: R) | Err(error: E)

  function Min(a: nat, b: nat): nat
  {
    if a <= b then a else b
  }
}
