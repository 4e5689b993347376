/** Optional values and results with an error, used wherever the source has
    `undefined`/`null` or reports an error instead of producing a value. */
module Wrappers {

  datatype Option<+T> = None | Some(value: T)

  datatype Result<+T, +E> = Success(value: T) | Failure(error: E)
}
