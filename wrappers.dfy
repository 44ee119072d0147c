/** The optional value used wherever jj returns an `Option`. */
module Wrappers {
  datatype Option<+T> = None | Some(value: T)
}
