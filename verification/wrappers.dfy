/** Optional values and results with an error, used wherever the service meets
    a JavaScript `undefined`/`null` or a failed statement. */
module Wrappers {

  /** `None` stands for a JSON field that is absent or `null`, and for SQL `NULL`. */
  datatype Option<+T> = None | Some(value: T)

  /** The outcome of a statement: a value, or the error the store reports. */
  datatype Result<+T, +E> = Success(value: T) | Failure(error: E)
}
