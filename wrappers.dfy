/** Optional values, and the success-or-error value that the fallible operations return. */
module Wrappers {

  /** A value that may be absent: `None` stands for a Java `null` reference. */
  datatype Option<+T> = None | Some(value: T)

  datatype Result<+T, +E> = Ok(value: T) | Err(error: E)
}
