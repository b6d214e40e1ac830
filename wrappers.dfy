/** Optional values and error results shared by the model. */
module Wrappers {

  /** `None` stands for Python's `None`: an attribute that was never set. */
  datatype Option<+T> = None | Some(value: T)

  /** The result of an operation that may raise. */
  datatype Result<+T, +E> = Ok(value: T) | Err(error: E)
}
