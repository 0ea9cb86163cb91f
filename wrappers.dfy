/** Failure-carrying values: the model's stand-in for Kotlin's nullable types and thrown exceptions. */
module Wrappers {

  /** A Kotlin `T?`: either a value or `null`. */
  datatype Option<+T> = None | Some(value: T)

  /** The exceptions the modelled operations can throw. */
  datatype Error =
    | NoSuchElement          // java.util.NoSuchElementException
    | IndexOutOfBounds       // ArrayIndexOutOfBoundsException / StringIndexOutOfBoundsException

  /** The outcome of an operation that either returns a value or throws. */
  datatype Result<+T> = Success(value: T) | Failure(error: Error)
}
