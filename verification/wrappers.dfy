/** Optional values and fallible results, standing in for JavaScript's
    `undefined`/`null` and for thrown exceptions. */
module Wrappers {

  /** A value that may be absent (`undefined` or `null` in the source). */
  datatype Option<+T> = None | Some(value: T)

  /** The outcome of a computation that either produces a value or throws. */
  datatype Result<+T, +E> = Ok(value: T) | Err(error: E)

  /** A JavaScript `Error` object, reduced to the two fields the shell inspects. */
  datatype JsError = JsError(name: string, message: string)
}
