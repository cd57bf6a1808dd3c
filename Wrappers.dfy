/** The absent-or-present value used for JavaScript's `null` results. */
module Wrappers {
  datatype Option<T> = None | Some(value: T)
}
