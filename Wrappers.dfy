/** Optional and failing values shared by the whole model. */
module Wrappers {

  /** A value that may be missing: the model's stand-in for pandas' NaN
      (an absent field, an empty text read as a number, an empty mean). */
  datatype Option<+T> = None | Some(value: T)

  /** The outcome of a step that either yields a value or stops the run. */
  datatype Result<+T, +E> = Ok(value: T) | Err(error: E)
}
