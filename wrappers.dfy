/** The optional value used where the page code works with `null` or an
    absent result. */
module Wrappers {
  datatype Option<+T> = None | Some(value: T)
}
