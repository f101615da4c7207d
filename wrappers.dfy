/** Optional values and success-or-error outcomes shared by every module of the model. */
module Wrappers {

  /** A value that may be absent (a SQL NULL, a `findFirst` that matched nothing). */
  datatype Option<+T> = None | Some(value: T)

  /** The outcome of an operation that either yields a value or throws an error. */
  datatype Result<+T, +E> = Ok(value: T) | Err(error: E)

  /** The outcome of an operation that yields nothing on success. */
  datatype Outcome<+E> = Pass | Fail(error: E)
}
