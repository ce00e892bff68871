/** Optional values and results with an error, standing for JavaScript's
    `null`/`undefined` returns and for the exceptions a call can raise. */
module Wrappers {

  datatype Option<+T> = None | Some(value: T)

  /** A computation that either yields a value or raises a JavaScript error. */
  datatype Result<+T, +E> = Ok(value: T) | Err(error: E)
}
