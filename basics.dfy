/** Small wrapper types shared by every module of the model. */
module Basics {

  /** A value that may be absent (Python's `None`). */
  datatype Option<T> = None | Some(value: T)

  /** The Python exception classes the modelled code can raise. */
  datatype PyError = ValueError | KeyError | TypeError | AttributeError | OverflowError | NameError

  /** A value, or the exception raised instead of producing it. */
  datatype Result<T> = Ok(value: T) | Fail(error: PyError)

  /** How a command ended: normally, or by an exception that escaped it. */
  datatype Status = Completed | Raised(error: PyError)
}
