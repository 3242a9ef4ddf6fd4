/** The optional-value and outcome datatypes used wherever the source has `undefined`, `null` or a rejection. */
module Wrappers {

  datatype Option<+T> = None | Some(value: T)

  /** A settled promise: resolved with a value, or rejected with a reason. */
  datatype Result<+T> = Success(value: T) | Failure(error: string)
}
