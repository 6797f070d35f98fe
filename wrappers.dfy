/** The optional value used where the source works with nullable references. */
module Wrappers {
  datatype Option<+T> = None | Some(value: T)
}
