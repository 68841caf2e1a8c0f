/** Optional values and results that carry either a value or the exception raised. */
module Wrappers {

  /** Python `None` or a present value. */
  datatype Option<+T> = None | Some(value: T)

  /** A returned value, or the exception that stopped the operation. */
  datatype Result<+T, +E> = Ok(value: T) | Err(error: E)
}
