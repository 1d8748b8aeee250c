/** Failure-compatible result types used across the model. */
module Wrappers {

  datatype Option<+T> = None | Some(value: T)

  /** Either a value or an error; usable with `:-`. */
  datatype Result<+T, +E> = Success(value: T) | Failure(error: E) {

    predicate IsFailure() {
      Failure?
    }

    function PropagateFailure<U>(): Result<U, E>
      requires Failure?
    {
      Failure(error)
    }

    function Extract(): T
      requires Success?
    {
      value
    }
  }
}

/** States and symbols are plain strings; the empty string marks an epsilon edge. */
module AutomataTypes {

  type State = string
  type Symbol = string

  /** The key symbol of an epsilon transition (`''` in the source). */
  const Eps: Symbol := ""
}
