/** Option and Result values shared by the whole model. A thrown error of the
    source (a BalerError, an Error or a TypeError) is an `Err` carrying its
    message. */
module Wrappers {

  datatype Option<+T> = None | Some(value: T)

  datatype Result<+T> = Ok(value: T) | Err(error: string)

  /** The source's `undefined`-or-value outcome of an operation that does not throw. */
  datatype Outcome = Pass | Fail(error: string)
}
