/** The optional value shared by the geometry, the pair enumeration and the sorter. */
module Wrappers {
  datatype Option<T> = None | Some(value: T)
}
