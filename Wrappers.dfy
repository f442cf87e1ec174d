/** Optional values and results with an error, used where the source has a
    nullable reference or throws an exception. */
module Wrappers {

  /** `None` stands for the source's `null`. */
  datatype Option<+T> = None | Some(value: T)

  /** `Err` stands for an exception thrown to the caller. */
  datatype Result<+T, +E> = Ok(value: T) | Err(error: E)
}
