/** Failure-carrying result types used by the match model. */
module Wrappers {

  /** An optional value: a key of a Python dict that may be absent. */
  datatype Option<T> = None | Some(value: T)

  /** The outcome of a validator: it passes, or it stops at its first error. */
  datatype Outcome<E> = Pass | Fail(error: E)
}
