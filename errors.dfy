/** Failure signalling shared by the whole engine: every failure the library raises is a
    `std::invalid_argument` carrying a fixed message, and no operation returns a partial result. */
module Errors {

  /** The only error kind the core raises. */
  datatype Error = InvalidArgument(message: string)

  datatype Option<+T> = None | Some(value: T)

  /** The outcome of an operation that may throw: a value, or the error it was aborted with. */
  datatype Result<+T> = Ok(value: T) | Err(error: Error) {

    predicate IsFailure() {
      Err?
    }

    function PropagateFailure<U>(): Result<U>
      requires Err?
    {
      Err(error)
    }

    function Extract(): T
      requires Ok?
    {
      value
    }
  }
}
