/** A value that may be missing: a nil map or pointer, a key that is not there. */
module Options {
  datatype Option<+T> = None | Some(value: T)
}
