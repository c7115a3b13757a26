/** Results that may be missing: null pointers and failed parses. */
module Options {
  datatype Option<T> = None | Some(value: T)
}
