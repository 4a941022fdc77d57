/** Failure-compatible result types shared by the resolution engine. */
module Wrappers {

  /** A value that may be absent: the "not found" answers of the engine. */
  datatype Option<+T> = None | Some(value: T)

  /** Either a computed value or the error the engine raises instead. */
  datatype Result<+R, +E> = Success(value: R) | Failure(error: E)
}
