/** The optional value returned by an iterator step and held in a frame's parent link. */
module Options {
  datatype Option<T> = None | Some(value: T)
}
