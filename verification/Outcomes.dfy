/** A value, or the error an instruction ends with. */
module Outcomes {
  datatype Outcome<+T, +E> = Success(value: T) | Failure(error: E) {

    predicate IsFailure() {
      Failure?
    }

    function PropagateFailure<U>(): Outcome<U, E>
      requires Failure?
    {
      Failure(error)
    }

    function Extract(): T
      requires Success?
    {
      value
    }
  }

  function Require<E>(condition: bool, error: E): Outcome<(), E> {
    if condition then Success(()) else Failure(error)
  }
}
