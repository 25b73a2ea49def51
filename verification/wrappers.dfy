/** The value-or-error pair that Go functions return as `(R, error)`. */
module Wrappers {

  /** `Ok(v)` stands for `(v, nil)`; `Err(e)` for a non-nil error `e`, whose accompanying value the callers here discard. */
  datatype Result<+R, +E> = Ok(value: R) | Err(error: E)
}
