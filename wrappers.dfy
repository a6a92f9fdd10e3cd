/** Optional values and results, used where the dashboard code produces
    `null`/`undefined` or reports an error instead of a value. */
module Wrappers {

  datatype Option<+T> = None | Some(value: T)

  datatype Result<+R, +E> = Success(value: R) | Failure(error: E)
}
