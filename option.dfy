/** A value that may be missing. */
module Opt {
  datatype Option<T> = None | Some(value: T)
}
