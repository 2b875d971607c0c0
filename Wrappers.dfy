/** The optional value used wherever the script reads something that may be null. */
module Wrappers {
  datatype Option<T> = None | Some(value: T)
}
