/** The optional value shared by the quadtree model and the worlds. */
module Wrappers {
  datatype Option<T> = None | Some(value: T)
}
