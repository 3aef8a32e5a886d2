/** Optional values and error-or-value results, used for the store's
    "nothing found" answers and for the duplicate-name error. */
module Wrappers {

  datatype Option<+T> = None | Some(value: T)

  datatype Result<+R, +E> = Success(value: R) | Failure(error: E)
}
