/** Failure-compatible result types and the exception kinds the Python core raises. */
module Errors {

  datatype Option<+T> = None | Some(value: T)

  /** One constructor per Python exception class the core raises or lets escape.
      The message is the argument the exception is raised with (for every
      class but `KeyError` that is also what `str(exc)` gives). */
  datatype Error =
    | ValueError(msg: string)
    | KeyError(msg: string)
    | OverflowError(msg: string)
    | AuthenticationError(msg: string)
    | LoginError(msg: string)
    | EnrollmentError(msg: string)
  {
    /** True for the exceptions an `except ValueError` handler catches. */
    predicate IsValueError() { ValueError? }
  }

  /** A successful value or a raised exception. */
  datatype Result<+T> = Ok(value: T) | Err(error: Error) {
    predicate IsFailure() { Err? }

    function PropagateFailure<U>(): Result<U>
      requires Err?
    {
      Err(error)
    }

    function Extract(): T
      requires Ok?
    {
      value
    }
  }
}
