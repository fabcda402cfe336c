/** Optional values and outcomes: a JSON field that may be absent, a step
  * that may throw. */
module Wrappers {

  datatype Option<+T> = None | Some(value: T)

  datatype Result<+T> = Success(value: T) | Failure(error: string)
}
