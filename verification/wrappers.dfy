/** Optional values and results, standing in for JavaScript's falsy values and thrown `TypeError`s. */
module Wrappers {

  /** A value that may be absent (`undefined`, `null` or another falsy value in the source). */
  datatype Option<+T> = None | Some(value: T)

  /** The result of an operation that may throw instead of returning. */
  datatype Result<+T, +E> = Ok(value: T) | Err(error: E)
}
