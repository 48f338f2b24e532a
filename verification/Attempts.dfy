/** Outcomes of computations that may end in a Python exception. */
module Attempts {

  datatype Option<+T> = None | Some(value: T)

  /** `Raised` stands for an exception that propagates to the caller: a date
      outside the years 1..9999, say. It composes with `:-`. */
  datatype Attempt<+T> = Raised | Done(value: T) {
    predicate IsFailure() {
      Raised?
    }

    function PropagateFailure<U>(): Attempt<U>
      requires Raised?
    {
      Raised
    }

    function Extract(): T
      requires Done?
    {
      value
    }
  }
}
