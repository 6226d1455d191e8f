/** Optional values and error-carrying results, used wherever the JavaScript code returns
    `undefined` or throws. */
module Outcome {

  /** A value that may be absent (`undefined` / `null` in the JavaScript code). */
  datatype Option<+T> = None | Some(value: T)

  /** Either a value or the error the JavaScript code would have thrown. */
  datatype Result<+T, +E> = Ok(value: T) | Err(error: E)
}
