/** Optional values and results with an error message, for JSON `null`
    and for JavaScript exceptions caught by `try`/`catch`. */
module Wrappers {

  datatype Option<+T> = None | Some(value: T)

  datatype Result<+T> = Ok(value: T) | Err(error: string)
}
