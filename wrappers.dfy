/** A value that may be missing: an omitted option, or no store installed. */
module Wrappers {
  datatype Option<T> = None | Some(value: T)
}
