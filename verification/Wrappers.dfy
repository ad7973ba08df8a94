/** Optional values and results shared by every module. */
module Wrappers {

  /** A value that the program writes as `T | null`. */
  datatype Option<+T> = None | Some(value: T)

  /** What a fallible operation of the program produces: a value, or the error it raises. */
  datatype Result<+T, +E> = Ok(value: T) | Err(error: E)
}
