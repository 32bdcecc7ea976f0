/** Optional values and results with an error, as returned by the splitter. */
module Wrappers {

  /** A value that may be absent: an asteroid half that was not emitted. */
  datatype Option<+T> = None | Some(value: T)

  /** The outcome of an operation that may throw. */
  datatype Result<+R, +E> = Success(value: R) | Failure(error: E)
}
