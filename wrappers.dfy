/** The absent-or-present value used where the component stores `null` or `undefined`. */
module Wrappers {
  datatype Option<+T> = None | Some(value: T)
}
