/** Failure-carrying datatypes used to model the source's `throw`s and its
    `undefined`/`NaN` results. */
module Wrappers {

  /** A value that may be absent (JavaScript's `undefined` or `NaN`). */
  datatype Option<+T> = None | Some(value: T)

  /** Either a value or the error the source would have thrown. */
  datatype Result<+R, +E> = Success(value: R) | Failure(error: E)
}
