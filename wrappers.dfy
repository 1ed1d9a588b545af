/** Optional values and the Python exceptions the modelled code can raise. */
module Wrappers {

  /** Python's `None` or a present value. */
  datatype Option<+T> = None | Some(value: T)

  /** The exceptions the modelled expressions can raise. */
  datatype Error =
    | TypeError   // an operator applied to operands of the wrong type (`0 + "text"`)
    | IndexError  // a tuple subscript out of range

  /** A value, or the exception raised while computing it. */
  datatype Result<+T> = Ok(value: T) | Err(error: Error)
}
