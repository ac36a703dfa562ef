/** Option and Result values, used where the PHP code returns null/false or throws. */
module Wrappers {

  datatype Option<+T> = None | Some(value: T)

  /** `Err` stands for an exception that the PHP code lets propagate to its caller. */
  datatype Result<+T, +E> = Ok(value: T) | Err(error: E)
}
