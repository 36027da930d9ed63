module Wrappers {
  datatype Option<+T> = None | Some(value: T)

  datatype Result<+T, +E> = Ok(value: T) | Err(error: E)

  /** The exceptions the Python code can raise. */
  datatype Error = IndexError | NotInvertible | EncodingFailed | AssertionFailed | KeyNotFound
}
