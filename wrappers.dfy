/** The optional value used for the nullable `T?` of the collection. */
module Wrappers {
  datatype Option<+T> = None | Some(value: T)
}
