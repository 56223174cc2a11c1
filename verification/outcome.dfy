/**
 Failure-compatible wrappers shared by every module of the model: `Option`
 for values that may be absent (a null pointer, a lookup miss) and `Result`
 for operations that either produce a value or stop at a named error exit.
 Both work with Dafny's `:-` operator.
 */
module Outcome {

  datatype Option<+T> = None | Some(value: T)

  datatype Result<+T, +E> = Ok(value: T) | Err(error: E) {

    predicate IsFailure() {
      Err?
    }

    function PropagateFailure<U>(): Result<U, E>
      requires Err?
    {
      Err(error)
    }

    function Extract(): T
      requires Ok?
    {
      value
    }
  }

  function Min(a: int, b: int): int {
    if a <= b then a else b
  }

  function Max(a: int, b: int): int {
    if a <= b then b else a
  }
}
