/** Optional values and error-carrying results, used wherever the portal has
    `null`/`undefined` fields or an operation that can fail with a message. */
module Wrappers {

  /** A value that may be absent: `null`, `undefined` or a missing row field. */
  datatype Option<+T> = None | Some(value: T)

  /** The outcome of a form submission: the produced value or the error text shown. */
  datatype Result<+T> = Ok(value: T) | Err(message: string)
}
