/** Nullable values and error results shared by the modules of this model. */
module Wrappers {

  /** A nullable value: Python's `None`, SQL's `NULL` or pandas' missing value. */
  datatype Option<+T> = None | Some(value: T)

  /** The normal return of an operation, or the exception it raises. */
  datatype Result<+T, +E> = Ok(value: T) | Err(error: E)
}
