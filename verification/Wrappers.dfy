/**
 Results that may be missing.
 */
module Wrappers {
  /** A value, or none: an empty channel, a failed assertion. */
  datatype Option<T> = None | Some(value: T)

  /** A value, or an exception. */
  datatype Result<T> = Ok(value: T) | Raised {
    predicate IsFailure() { Raised? }
    function PropagateFailure<U>(): Result<U> requires Raised? { Raised }
    function Extract(): T requires Ok? { value }
  }
}
