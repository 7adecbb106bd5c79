/** Optional values and results with an error, as the model's replacement for
    `None` and for exceptions that the script catches and turns into values. */
module Wrappers {

  datatype Option<+T> = None | Some(value: T)

  datatype Result<+T, +E> = Ok(value: T) | Err(error: E)
}
