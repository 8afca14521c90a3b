/** The failure-carrying shapes used across the model: a lookup that may find
    nothing, and an operation that may fail with an error instead of a value. */
module Wrappers {

  /** A value that may be absent, as in a `find` that matches nothing. */
  datatype Option<+T> = None | Some(value: T)

  /** The outcome of an operation that may throw. */
  datatype Result<+T, +E> = Success(value: T) | Failure(error: E)
}
