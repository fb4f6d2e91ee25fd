/** A value that may be missing: a nil, an absent key, a second result of false. */
module Options {
  datatype Option<T> = None | Some(value: T)
}
