/** Failure-compatible wrappers used for the error paths of the model: a pandas
    lookup that raises (an empty `iloc[0]`, a missing dictionary key) becomes a
    `Failure` carrying the reason. */
module Wrappers {

  datatype Option<+T> = None | Some(value: T)

  datatype Result<+T, +E> = Success(value: T) | Failure(error: E) {

    predicate IsFailure() {
      Failure?
    }

    function PropagateFailure<U>(): Result<U, E>
      requires Failure?
    {
      Failure(error)
    }

    function Extract(): T
      requires Success?
    {
      value
    }
  }
}
