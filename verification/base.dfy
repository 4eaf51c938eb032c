/** Option and Result wrappers used throughout the model. */
module Wrappers {

  /** A nullable value: `None` plays the part of a SQL NULL or a Python `None`. */
  datatype Option<+T> = None | Some(value: T) {

    /** The wrapped value, or `default` when there is none. */
    function GetOr(default: T): T {
      match this
      case Some(v) => v
      case None => default
    }
  }

  /** The outcome of an operation that may raise. */
  datatype Result<+T, +E> = Ok(value: T) | Err(error: E)
}

/** The error taxonomy of the desk-service core. */
module Errors {

  /** `ValidationError` stands for the `ValueError`s the managers and the
      customer repository raise before touching the store; `PersistenceError`
      for a statement the store itself rejects. */
  datatype Error =
    | ValidationError(message: string)
    | PersistenceError(message: string)
}
