/** Optional values and results with an error message: the TypeScript
    `undefined` that `?.` produces and the `Error` that `throw` raises. */
module Wrappers {

  /** A value that may be absent, as `board[y]?.[x]` may be `undefined`. */
  datatype Option<+T> = None | Some(value: T)

  /** A value, or the message of the error the code throws instead. */
  datatype Result<+T> = Ok(value: T) | Err(error: string)
}
