/** The absent-or-present value used where the Go code returns a nil-able pointer or error. */
module Wrappers {

  datatype Option<+T> = None | Some(value: T)
}
