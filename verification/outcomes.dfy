/** Option and Result values used where blutil.py returns None or raises. */
module Outcomes {

  datatype Option<+T> = None | Some(value: T)

  /** A success value, or the error the source raises instead. */
  datatype Result<+T, +E> = Success(value: T) | Failure(error: E)
}
