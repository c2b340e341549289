/** The optional value used where the scanner stores or returns JavaScript's `null`. */
module Wrappers {
  datatype Option<+T> = None | Some(value: T)
}
