/** Failure-compatible wrappers shared by every module of the model.
    `Option` stands for a Go pointer that may be nil, `Result` for a
    `(value, error)` pair and `Outcome` for a bare `error` return. */
module Wrappers {

  datatype Option<+T> = None | Some(value: T)

  datatype Result<+R, +E> = Success(value: R) | Failure(error: E)

  datatype Outcome<+E> = Pass | Fail(error: E)
}
