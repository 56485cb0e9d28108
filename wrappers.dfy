/** Option and Result values used across the model in place of JavaScript's
    null/undefined/NaN and of thrown exceptions. */
module Wrappers {

  /** `None` stands for JavaScript's null, undefined or NaN, as each use says. */
  datatype Option<+T> = None | Some(value: T)

  /** `Failure` stands for an exception the source throws. */
  datatype Result<+R, +E> = Success(value: R) | Failure(error: E)
}
