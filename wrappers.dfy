/** The optional value the Swift code writes as `T?`. */
module Wrappers {
  datatype Option<+T> = None | Some(value: T)
}
