/** A value that may be absent, as a nil pointer or a missing map entry is. */
module Options {
  datatype Option<+T> = None | Some(value: T)
}
