/** Option and Result values shared by the solver, parser and generator models. */
module Wrappers {

  /** Python's `Optional[T]`: `None` or a present value. */
  datatype Option<+T> = None | Some(value: T)

  /** A value, or the message of the `ValueError` the source raises. */
  datatype Result<+T> = Ok(value: T) | Err(message: string)
}
