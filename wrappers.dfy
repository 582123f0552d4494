/** The optional value used for JavaScript's `T | null` fields. */
module Wrappers {
  datatype Option<+T> = None | Some(value: T)
}
