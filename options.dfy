/** Values that may be missing: JavaScript's null result. */
module Options {
  datatype Option<T> = None | Some(value: T)
}
