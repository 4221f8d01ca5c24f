/** Optional values and success/failure results, used for lookups that may
    find nothing and for resolvers that may fail. */
module Wrappers {

  datatype Option<+T> = None | Some(value: T)

  datatype Result<+R, +E> = Success(value: R) | Failure(error: E)
}
