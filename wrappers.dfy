/** Option and Result datatypes, for optional arguments and for the errors the script can raise. */
module Wrappers {

  /** An optional argument: `None` stands for Python's `None`. */
  datatype Option<+T> = None | Some(value: T)

  /** Either a value or the exception a Python call would raise. */
  datatype Result<+R, +E> = Success(value: R) | Failure(error: E)
}
