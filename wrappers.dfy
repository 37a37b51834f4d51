/** Optional values, the exceptions the collections raise, and results that carry either. */
module Wrappers {
  datatype Option<T> = None | Some(value: T)

  /** The Python exceptions the vector and the map raise to their callers. */
  datatype Error = IndexError | TypeError | ValueError | KeyError

  /** A value, or the exception raised instead of returning one. */
  datatype Result<T> = Ok(value: T) | Err(error: Error)
}
