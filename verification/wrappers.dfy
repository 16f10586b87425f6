/** Python's exceptions, as far as the modelled code raises them, and the
    wrappers the model returns in their place. */
module Wrappers {

  /** The built-in exceptions the modelled functions can raise. */
  datatype Error = ValueError | IndexError | KeyError | AttributeError

  datatype Option<+T> = None | Some(value: T)

  /** A value, or the exception raised instead of returning one. */
  datatype Result<+T> = Ok(value: T) | Err(error: Error)

  /** The outcome of a call that returns nothing (Python's None) or raises. */
  datatype Outcome = Pass | Fail(error: Error)
}
