/** Optional values and success-or-error results, standing in for Java's
    `Optional`, `null` and thrown exceptions. */
module Wrappers {

  datatype Option<+T> = None | Some(value: T)

  datatype Result<+T, +E> = Success(value: T) | Failure(error: E)

  /** The outcome of a mutator that either completes or fails. */
  datatype Outcome<+E> = Pass | Fail(error: E)
}
