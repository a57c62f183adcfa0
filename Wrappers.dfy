/** The optional value used where the page holds `T | null` or a missing result. */
module Wrappers {
  datatype Option<+T> = None | Some(value: T)
}
