/** The outcome of a call into an external service that may fail. */
module Wrappers {

  /** `Some(v)` when the call returned `v`, `None` when it raised. */
  datatype Option<+T> = None | Some(value: T)
}
