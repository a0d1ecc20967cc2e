/** Failure-compatible wrappers used across the model. The error kinds are the
    .NET exceptions that the modelled code can raise. */
module Results {

  /** The exceptions the modelled string and integer operations throw. */
  datatype Error =
    | ArgumentOutOfRange   // String.PadRight with a negative width, String.Substring out of range
    | DivideByZero         // integer division by a zero pixel width

  datatype Option<+T> = None | Some(value: T)

  /** A value, or the exception that the .NET operation would have thrown. */
  datatype Result<+T> = Success(value: T) | Failure(error: Error) {
    predicate IsFailure() {
      Failure?
    }

    function PropagateFailure<U>(): Result<U>
      requires Failure?
    {
      Failure(error)
    }

    function Extract(): T
      requires Success?
    {
      value
    }
  }

  /** The end of a step that returns nothing: it completed, or it threw. */
  datatype Outcome = Pass | Fail(error: Error)
}
