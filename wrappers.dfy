/** Optional values and results with an error, standing for JavaScript's
    `null`/`NaN` and for a thrown exception. */
module Wrappers {

  /** A value that may be absent (`null` or `undefined` in the source). */
  datatype Option<+T> = None | Some(value: T)

  /** A computed value, or the error the source throws instead. */
  datatype Result<+T, +E> = Ok(value: T) | Err(error: E)
}
