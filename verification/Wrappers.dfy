/** Values that may be absent and computations that may fail. */
module Wrappers {

  datatype Option<+T> = None | Some(value: T)

  /** A `Result` whose error says no more than that there was one. */
  datatype Result<+T> = Ok(value: T) | Err {
    predicate IsFailure() {
      Err?
    }

    function PropagateFailure<U>(): Result<U>
      requires Err?
    {
      Err
    }

    function Extract(): T
      requires Ok?
    {
      value
    }
  }
}
