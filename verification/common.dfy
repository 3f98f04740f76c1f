/** The optional and failing results shared by the models. */
module Outcomes {

  /** A value that may be missing (Python's `None`). */
  datatype Option<+T> = None | Some(value: T)

  /** A value, or the reason a call raised. */
  datatype Result<+T, +E> = Ok(value: T) | Err(error: E)
}
