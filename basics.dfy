/** Optional values, the exceptions the transform scripts can raise, and the
    failure-compatible wrappers used to propagate them. */
module Basics {

  /** A value that may be missing: a missing table cell, or a Python `None`. */
  datatype Option<+T> = None | Some(value: T)

  /** The exceptions the transforms raise, as values. */
  datatype Error =
    | KeyError(labels: seq<string>)   // a column label that is not in the frame
    | ValueError(text: string)        // strptime could not parse `text`
    | AttributeError                  // a string method was called on None
    | TypeError                       // `str.strip` was called unbound on None

  /** The result of an operation that either returns a value or raises. */
  datatype Result<+T> = Ok(value: T) | Err(error: Error) {
    predicate IsFailure() { Err? }

    function PropagateFailure<U>(): Result<U>
      requires Err?
    {
      Err(error)
    }

    function Extract(): T
      requires Ok?
    {
      value
    }
  }

  /** The result of an operation run for its effect on a frame. */
  datatype Outcome = Pass | Fail(error: Error)
}
