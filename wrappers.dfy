/** The optional value used for the bounding box and for decoding. */
module Wrappers {
  datatype Option<T> = None | Some(value: T)
}
