/** Optional values and error-carrying results.

    `Option` stands for a lookup that may find nothing (a Ruby `nil`);
    `Result` carries either a rendered value or the error the renderer
    raises, and works with Dafny's `:-` operator. */
module Wrappers {

  datatype Option<+T> = None | Some(value: T) {

    /** Ruby's `x || default` on a possibly-nil value. */
    function GetOr(default: T): T {
      match this
      case Some(v) => v
      case None => default
    }
  }

  datatype Result<+R, +E> = Success(value: R) | Failure(error: E) {

    predicate IsFailure() {
      Failure?
    }

    function PropagateFailure<U>(): Result<U, E>
      requires Failure?
    {
      Failure(error)
    }

    function Extract(): R
      requires Success?
    {
      value
    }
  }
}
