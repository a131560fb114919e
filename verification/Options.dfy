/** A value that may be missing: a null pointer, an unset mask, an action not taken. */
module Options {
  datatype Option<T> = None | Some(value: T)
}
