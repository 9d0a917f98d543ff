/** Values that may be missing, and computations that may fail. */
module Wrappers {
  datatype Option<T> = None | Some(value: T) {
    function GetOr(default: T): T {
      match this
      case None => default
      case Some(v) => v
    }
  }

  /**
   * How the program can fail: `exit`, a failed assertion or `abort`, a null result (unknown type, with the
   * option to ignore encoding errors), or a read past the end of a buffer that no check stops.
   */
  datatype Failure = Exit | Abort | Skip | OutOfBounds

  datatype Result<+T> = Ok(value: T) | Fail(failure: Failure) {
    function GetOr(default: T): T {
      match this
      case Ok(v) => v
      case Fail(_) => default
    }

    predicate IsFailure() {
      Fail?
    }

    function PropagateFailure<U>(): Result<U>
      requires Fail?
    {
      Fail(failure)
    }

    function Extract(): T
      requires Ok?
    {
      value
    }
  }
}
