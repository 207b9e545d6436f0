/** The absent-or-present value that stands for a nullable column or optional argument. */
module Wrappers {
  datatype Option<+T> = None | Some(value: T)
}
