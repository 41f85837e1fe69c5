/** Failure-compatible result types shared by the codec and the analytics model. */
module Wrappers {

  /** An optional value; `None` stands for a missing attribute or a failed conversion. */
  datatype Option<+T> = None | Some(value: T)

  /** Success with a value, or failure with an error describing why. */
  datatype Result<+T, +E> = Ok(value: T) | Err(error: E) {

    predicate IsFailure() {
      Err?
    }

    function PropagateFailure<U>(): Result<U, E>
      requires Err?
    {
      Err(error)
    }

    function Extract(): T
      requires Ok?
    {
      value
    }
  }
}
