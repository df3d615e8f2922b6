/** Small failure-carrying datatypes shared by the whole model. */
module Wrappers {

  /** A value that may be missing, as Python's `None` or pandas' empty result. */
  datatype Option<+T> = None | Some(value: T)

  /** A value or the error a pandas/Python call would have raised. */
  datatype Result<+T, +E> = Ok(value: T) | Err(error: E)
}
