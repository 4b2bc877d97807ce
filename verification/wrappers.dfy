/** Failure-carrying datatypes shared by every module of the model.

    - Option<T> stands for Python's `Optional[T]`: `None` or a value.
    - Outcome<T> stands for a call that either returns a value or raises an
      exception; the model never needs to know which exception was raised,
      because every handler in the modelled code treats them all alike.
 */
module Wrappers {

  datatype Option<+T> = None | Some(value: T) {

    /** The value, or `default` when there is none (Python's `x or default`
        for an optional that is never falsy when present). */
    function GetOr(default: T): T {
      match this
      case Some(v) => v
      case None => default
    }
  }

  datatype Outcome<+T> = Returned(value: T) | Raised
}
