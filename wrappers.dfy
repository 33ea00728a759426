/** Option, Result and Outcome: the values through which the catalog reports
    an absent field, a failed lookup or a failed validation. */
module Wrappers {

  /** A value that may be absent (a NULL column or an omitted form field). */
  datatype Option<+T> = None | Some(value: T)

  /** The result of an operation that yields a value or fails with an error. */
  datatype Result<+T, +E> = Ok(value: T) | Err(error: E)

  /** The result of an operation that yields nothing but may fail. */
  datatype Outcome<+E> = Pass | Fail(error: E)
}
