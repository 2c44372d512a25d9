/** Optional values and results with an error, as the JavaScript source expresses
    them with `undefined` and thrown exceptions. */
module Wrappers {

  datatype Option<+T> = None | Some(value: T)

  /** A thrown JavaScript error, reduced to its `message`. */
  datatype Error = Error(message: string)

  datatype Result<+R> = Ok(value: R) | Err(error: Error)
}
