/** Optional values and pass/fail outcomes used throughout the model. */
module Wrappers {
  datatype Option<T> = None | Some(value: T)

  /** The outcome of an operation that either completes or is rejected with a reason. */
  datatype Outcome<E> = Pass | Fail(error: E)
}
