/** Optional values and outcomes that may be errors. */
module Wrappers {
  datatype Option<T> = None | Some(value: T)

  /** A Python call that either returns a value or raises the exception named by `error`. */
  datatype Result<T> = Ok(value: T) | Err(error: string)
}
