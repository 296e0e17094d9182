/** Option and Result: a Java reference that may be null, and a call that may throw. */
module Wrappers {

  /** `None` stands for a Java `null`. */
  datatype Option<+T> = None | Some(value: T)

  /** `Err` stands for an exception that propagates out of a call. */
  datatype Result<+T, +E> = Ok(value: T) | Err(error: E)
}
