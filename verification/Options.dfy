/** Pointers that may be null, and calls that may refuse. */
module Options {
  datatype Option<+T> = None | Some(value: T)
}
