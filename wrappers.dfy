/** An optional value, standing for JavaScript's `null`/`undefined`. */
module Wrappers {

  /** A value that may be absent. */
  datatype Option<+T> = None | Some(value: T)
}
