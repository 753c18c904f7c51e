/** Shared result types and the error values the application throws. */
module Outcomes {

  datatype Option<+T> = None | Some(value: T)

  /** A value, or the error a JavaScript function would have thrown instead. */
  datatype Result<+T, +E> = Success(value: T) | Failure(error: E)

  /** Completion of an operation that returns nothing, or the error it threw. */
  datatype Outcome<+E> = Pass | Fail(error: E)

  /**
   * The two error classes the core distinguishes: `InvalidServerResponseError`
   * (a subclass of `Error`) and a plain `Error`. Only the class and the message
   * are observable to the callers.
   */
  datatype Error = InvalidServerResponseError(message: string) | PlainError(message: string)
  {
    /** The `name` property of the JavaScript error object. */
    function Name(): string
    {
      match this
      case InvalidServerResponseError(_) => "InvalidServerResponseError"
      case PlainError(_) => "Error"
    }
  }

  /** `new InvalidServerResponseError(message)`. */
  function NewInvalidServerResponseError(message: string): (e: Error)
    ensures e.InvalidServerResponseError?
    ensures e.Name() == "InvalidServerResponseError" && e.message == message
  {
    InvalidServerResponseError(message)
  }
}
