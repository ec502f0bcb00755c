/** How an operation of the editor core ends: normally, or by throwing
    IndexOutOfBoundsException, the only exception the core raises itself. */
module Outcomes {

  datatype Option<T> = None | Some(value: T)

  datatype Exception = IndexOutOfBounds

  /** A call that returns nothing: it completes (`Pass`) or throws. */
  datatype Outcome = Pass | Fail(error: Exception)

  /** A call that returns a value or throws. */
  datatype Result<T> = Ok(value: T) | Err(error: Exception)
}
