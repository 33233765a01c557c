/**
 * The .NET exceptions that the library throws, and the outcome of an operation
 * that either produces a value or throws.
 */
module Errors {
  datatype Exception =
    | ArgumentException
    | ArgumentOutOfRangeException
    | NotSupportedException
    | ObjectDisposedException
    | OverflowException
    | DivideByZeroException
    | InvalidOperationException
    | IndexOutOfRangeException
    | IOException

  datatype Result<T> = Ok(value: T) | Throws(error: Exception)
  {
    predicate IsOk()
    {
      Ok?
    }
  }

  /** The outcome of an operation with no result. */
  datatype Outcome = Done | Fails(error: Exception)
}
