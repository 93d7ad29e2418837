/** Option for JavaScript's `undefined`/`null`/`NaN` results, Result for thrown errors. */
module Wrappers {
  datatype Option<+T> = None | Some(value: T)

  datatype Result<+T, +E> = Success(value: T) | Failure(error: E)
}
