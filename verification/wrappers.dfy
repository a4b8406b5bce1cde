/** Small failure-compatible wrapper shared by the parser and the limiter. */
module Wrappers {

  /** A value that may be absent: the result of a parse that can fail, or an optional error. */
  datatype Option<+T> = None | Some(value: T)
}
