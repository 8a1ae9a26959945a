/** Failure-carrying result types shared by the model's modules. */
module Wrappers {

  /** An optional value: `None` stands for "not present / not parseable". */
  datatype Option<+T> = None | Some(value: T)

  /** The outcome of an operation that the original program could abort with an exception. */
  datatype Result<+R, +E> = Success(value: R) | Failure(error: E) {

    predicate IsFailure() {
      Failure?
    }

    function PropagateFailure<U>(): Result<U, E>
      requires Failure?
    {
      Failure(error)
    }

    function Extract(): R
      requires Success?
    {
      value
    }
  }
}
