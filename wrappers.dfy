/** The failure-compatible option type used for Python's exceptions (ValueError, TypeError). */
module Wrappers {
  datatype Option<+T> = None | Some(value: T)
}
