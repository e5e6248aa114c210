/** Failure-compatible wrappers used across the model: an optional value and a
    value-or-error result (Go's `(T, error)` pair). */
module Wrappers {

  datatype Option<+T> = None | Some(value: T)

  /** `Ok(v)` stands for a Go return of `(v, nil)`, `Err(e)` for `(zero, e)`. */
  datatype Result<+T, +E> = Ok(value: T) | Err(error: E)
}
