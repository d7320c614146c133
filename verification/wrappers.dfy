/** Failure-carrying results shared by every module of the model. */
module Wrappers {

  /** The outcome of an operation that the source can abort: a Go panic, an
      out-of-range slice index or a JavaScript TypeError all become `Crash`. */
  datatype Result<+T> = Ok(value: T) | Crash(reason: string)

  datatype Option<+T> = None | Some(value: T)
}
