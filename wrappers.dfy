/** Optional values and results with an error case, for PHP's nullable
    returns and for the points where the program stops with `die`/`exit`. */
module Wrappers {

  datatype Option<T> = None | Some(value: T)

  datatype Result<T, E> = Ok(value: T) | Err(error: E)
}
