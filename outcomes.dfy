/** Optional values and fallible results, used for missing variable bounds and
    for managers whose construction raises. */
module Outcomes {

  datatype Option<+T> = None | Some(value: T)

  datatype Result<+T, +E> = Success(value: T) | Failure(error: E)
}
