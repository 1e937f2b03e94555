/** Option and Result, used for Python's `None` results and for its exceptions. */
module Wrappers {

  datatype Option<+T> = None | Some(value: T)

  /** A Python call either returns a value or raises the exception carried by Err. */
  datatype Result<+T, +E> = Ok(value: T) | Err(error: E)
}
