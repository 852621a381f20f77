/** Failure-compatible result types shared by every module of the model.
    The Python source signals failure by raising; each raise it can reach
    is one `Error` value here. */
module Wrappers {

  /** The exception kinds the modelled code raises. */
  datatype Error =
    | ZeroDivision    // ZeroDivisionError
    | Exhausted       // StopIteration from a drained stream
    | InvalidValue    // ValueError
    | ScanExceeded    // RuntimeError from the algebraic root scan
    | IndexOutOfRange // IndexError
    | MissingAttribute // AttributeError

  datatype Option<+T> = None | Some(value: T) {
    predicate IsFailure() { None? }

    function PropagateFailure<U>(): Option<U>
      requires None?
    {
      None
    }

    function Extract(): T
      requires Some?
    {
      value
    }
  }

  datatype Result<+T> = Success(value: T) | Failure(error: Error) {
    predicate IsFailure() { Failure? }

    function PropagateFailure<U>(): Result<U>
      requires Failure?
    {
      Failure(error)
    }

    function Extract(): T
      requires Success?
    {
      value
    }
  }
}
