/** Optional and failure-carrying values shared by the rest of the model. */
module Wrappers {

  /** A value that may be missing: a request field that was not sent (`undefined`),
      a SQL NULL, or a lookup that found nothing. */
  datatype Option<+T> = None | Some(value: T)

  /** Either the value an operation produces or the error it answers with. */
  datatype Result<+T, +E> = Ok(value: T) | Err(error: E)
}
