/** Small failure-compatible wrapper shared by the other modules. */
module Wrappers {

  /** A value that may be absent: a NULL pointer, a missing key, an untouched out-parameter. */
  datatype Option<+T> = None | Some(value: T)
}
