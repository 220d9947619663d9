/** Failure-compatible wrappers shared by every module of the model. */
module Wrappers {

  /** An optional value: the model's counterpart of Rust's `Option`. */
  datatype Option<+T> = None | Some(value: T) {

    predicate IsFailure() {
      None?
    }

    function PropagateFailure<U>(): Option<U>
      requires None?
    {
      None
    }

    function Extract(): T
      requires Some?
    {
      value
    }
  }

  /** A success value or an error value: the model's counterpart of Rust's `Result`. */
  datatype Result<+R, +E> = Success(value: R) | Failure(error: E) {

    predicate IsFailure() {
      Failure?
    }

    function PropagateFailure<U>(): Result<U, E>
      requires Failure?
    {
      Failure(error)
    }

    function Extract(): R
      requires Success?
    {
      value
    }

    /** `map_err`: the same success, or the error replaced by `f` of it. */
    function MapFailure<E2>(f: E -> E2): (r: Result<R, E2>)
      ensures Success? <==> r.Success?
      ensures Success? ==> r.value == value
      ensures Failure? ==> r.error == f(error)
    {
      match this
      case Success(v) => Success(v)
      case Failure(e) => Failure(f(e))
    }
  }
}
