/** `Option`, whose `None` stands for Go's nil error. */
module Wrappers {

  /** A value that may be absent; Go's `nil` error is `None`. */
  datatype Option<+T> = None | Some(value: T)
}
