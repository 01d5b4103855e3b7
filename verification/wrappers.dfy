/** Failure-compatible result types shared by every parser module.
    `None` stands for Python's `None`; `Failure` stands for a raised exception
    (the parsers define no error taxonomy, so only a short reason is kept). */
module Wrappers {

  datatype Option<+T> = None | Some(value: T) {
    predicate IsFailure() {
      None?
    }

    function PropagateFailure<U>(): Option<U>
      requires None?
    {
      None
    }

    function Extract(): T
      requires Some?
    {
      value
    }
  }

  datatype Result<+R> = Success(value: R) | Failure(reason: string) {
    predicate IsFailure() {
      Failure?
    }

    function PropagateFailure<U>(): Result<U>
      requires Failure?
    {
      Failure(reason)
    }

    function Extract(): R
      requires Success?
    {
      value
    }
  }
}
