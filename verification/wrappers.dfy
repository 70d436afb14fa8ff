/** Failure-carrying result types shared by the whole model. */
module Wrappers {

  /** A value that may be absent, the model of a Swift optional. */
  datatype Option<+T> = None | Some(value: T)

  /** Either a computed value or a typed error, the model of a Swift `throws`. */
  datatype Result<+R, +E> = Success(value: R) | Failure(error: E)
}
