/** Wrappers shared by the three tools. */
module Wrappers {

  /** A value that may be missing: a null cell, a search that found nothing. */
  datatype Option<T> = None | Some(value: T)

  /** The outcome of an operation that Python would end with an exception. */
  datatype Result<T, E> = Ok(value: T) | Err(error: E)
}
