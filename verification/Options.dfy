/** A value that may be missing: a null pointer, a failed search, an idle slot. */
module Options {
  datatype Option<T> = None | Some(value: T)
}
