/** Failure-carrying results. jsoncpp reports misuse through JSON_ASSERT and
    throwRuntimeError/throwLogicError (exceptions); the model turns each of
    those into a `Fail` carrying the message, and absence (a null pointer, the
    shared null singleton) into `None`. */
module Wrappers {

  datatype Option<+T> = None | Some(value: T) {
    predicate IsFailure() { None? }

    function PropagateFailure<U>(): Option<U>
      requires None?
    {
      None
    }

    function Extract(): T
      requires Some?
    {
      value
    }

    function GetOr(default: T): T {
      match this
      case Some(v) => v
      case None => default
    }
  }

  /** The outcome of an operation that may throw: `Fail(message)` stands for
      the exception and its what() text. */
  datatype Result<+T> = Ok(value: T) | Fail(message: string) {
    predicate IsFailure() { Fail? }

    function PropagateFailure<U>(): Result<U>
      requires Fail?
    {
      Fail(message)
    }

    function Extract(): T
      requires Ok?
    {
      value
    }
  }
}
