/** The absent-or-present value used for a missing stored preference, a
    selector that finds no element and a search that finds no index. */
module Wrappers {
  datatype Option<+T> = None | Some(value: T)
}
