/** Option and Result values for the outcomes of parsing and of the recurrence engine. */
module Wrappers {
  datatype Option<+T> = None | Some(value: T)

  datatype Result<+T, +E> = Success(value: T) | Failure(error: E)
}
