/** The optional value used where the application sees `null` or a thrown error. */
module Wrappers {
  datatype Option<+T> = None | Some(value: T)
}
