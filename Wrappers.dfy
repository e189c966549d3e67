/** Small failure-compatible wrapper shared by the other modules. */
module Wrappers {

  /** A value that may be absent (`undefined`/`null` in the source). */
  datatype Option<+T> = None | Some(value: T)
}
