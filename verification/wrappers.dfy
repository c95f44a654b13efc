/** Failure-carrying datatypes shared by every module of the model.

    The Python code signals misuse by raising; the model returns `Err(kind)`
    instead, with the kind of exception the source raises. */
module Wrappers {

  /** A value that may be absent (Python's `None`). */
  datatype Option<+T> = None | Some(value: T) {
    function GetOr(default: T): T
    {
      match this
      case Some(v) => v
      case None => default
    }
  }

  /** The exception classes the modelled code raises. */
  datatype ErrorKind = RuntimeError | ValueError | KeyError | AttributeError | TypeError | AssertionError

  /** The outcome of an operation that either returns a value or raises. */
  datatype Result<+T> = Ok(value: T) | Err(error: ErrorKind) {
    predicate IsFailure()
    {
      Err?
    }

    function PropagateFailure<U>(): Result<U>
      requires Err?
    {
      Err(error)
    }

    function Extract(): T
      requires Ok?
    {
      value
    }
  }

  /** The outcome of an operation that may raise after it has already changed
      its object: the object as left behind, and the exception, if any. */
  datatype Outcome<+S> = Outcome(value: S, raised: Option<ErrorKind>)
}
