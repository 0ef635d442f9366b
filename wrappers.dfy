/** The `Option` datatype used for values a response may lack. */
module Wrappers {
  datatype Option<+T> = None | Some(value: T)
}
