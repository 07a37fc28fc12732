/** A value or none, for results that may be missing. */
module Options {
  datatype Option<T> = None | Some(value: T)
}
