/** Failure-carrying result types shared by the modules of the narration model. */
module Wrappers {

  /** A value that may be missing: the outcome of one speech-synthesis request. */
  datatype Option<+T> = None | Some(value: T)

  /** Either a successful value or the error that aborted the run. */
  datatype Result<+R, +E> = Success(value: R) | Failure(error: E)
}
