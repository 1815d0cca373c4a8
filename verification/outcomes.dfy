/** Optional values and results, standing in for Ruby's `nil` and raised errors. */
module Outcomes {

  /** A value that may be absent (`nil` in the source). */
  datatype Option<+T> = None | Some(value: T)

  /** The outcome of an operation that the source can abort with an exception. */
  datatype Result<+T, +E> = Ok(value: T) | Err(error: E)
}
