/** Optional values and success/failure results: the model's stand-ins for
    Java's nullable references and for thrown exceptions. */
module Wrappers {

  /** A nullable reference: `None` is Java's `null`. */
  datatype Option<+T> = None | Some(value: T)

  /** The outcome of an operation that may throw: `Failure` carries the
      exception kind, and no state change happens with it. */
  datatype Result<+T, +E> = Success(value: T) | Failure(error: E)
}
