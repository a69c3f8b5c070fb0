/** Optional values and results, standing for Ruby's `nil` and for raised validation errors. */
module Wrappers {
  datatype Option<T> = None | Some(value: T)

  datatype Result<T, E> = Ok(value: T) | Err(error: E)
}
