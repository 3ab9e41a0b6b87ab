/** Optional values and error-carrying results, standing in for Go's nil
    pointers and `(value, error)` return pairs. */
module Wrappers {

  datatype Option<+T> = None | Some(value: T)

  /** A Go `(value, err)` pair: `Err` carries the text of the error. */
  datatype Result<+T> = Ok(value: T) | Err(message: string)
}
