/** Failure-compatible results, and the exception classes the codec and the USM layer raise. */
module Wrappers {
  datatype Option<+T> = None | Some(value: T)

  datatype Result<+T, +E> = Success(value: T) | Failure(error: E) {
    predicate IsFailure() {
      Failure?
    }

    function PropagateFailure<U>(): Result<U, E>
      requires Failure?
    {
      Failure(error)
    }

    function Extract(): T
      requires Success?
    {
      value
    }
  }

  /** One constructor per exception class; messages are not modelled.
      `AuthenticationError` is a subclass of `ProtocolError` in the program, see `IsProtocol`. */
  datatype Error = ProtocolError | AuthenticationError | ValueError | StructError | TransportError | TimeoutError {
    /** What an `except ProtocolError` clause catches. */
    predicate IsProtocol() {
      ProtocolError? || AuthenticationError?
    }
  }

  type Outcome<+T> = Result<T, Error>

  /** The value of a check that only passes or raises. */
  datatype Unit = Unit
}
