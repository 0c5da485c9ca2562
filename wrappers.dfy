/** Optional values and error-carrying results shared by every module of the model.
    JavaScript's `null`/`undefined` become `None`; a thrown error becomes `Failure`. */
module Wrappers {

  datatype Option<+T> = None | Some(value: T)

  datatype Result<+R, +E> = Success(value: R) | Failure(error: E)

  /** A step that either completes or fails with an error and carries no value. */
  datatype Outcome<+E> = Pass | Fail(error: E)
}
