/** Optional values and results of operations that can fail, shared by the models. */
module Common {

  /** A value that may be absent: Python's None, or SQL NULL. */
  datatype Option<+T> = None | Some(value: T)

  /** The outcome of an operation that can raise. */
  datatype Result<+T, +E> = Ok(value: T) | Err(error: E)
}
