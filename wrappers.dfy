/** Failure-carrying values shared by all the models.

    The JavaScript sources signal misuse by throwing one of a few
    exception classes; here each such throw becomes a `Failure` (or a
    `Fail`) carrying the matching `Error`, and `null`/`undefined` become
    `None`. */
module Wrappers {

  /** The exception classes the sources throw. */
  datatype Error =
    | IllegalArgument    // IllegalArgumentException
    | NoSuchElement      // NoSuchElementException
    | Failed             // a plain `Error`

  datatype Option<+T> = None | Some(value: T)

  datatype Result<+T> = Success(value: T) | Failure(error: Error)

  /** The outcome of an operation that returns nothing but may throw. */
  datatype Outcome = Pass | Fail(error: Error)
}
