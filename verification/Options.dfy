/** A value that may be absent, as a pointer may be NULL. */
module Options {
  datatype Option<T> = None | Some(value: T)
}
