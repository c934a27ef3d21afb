module Options {

  /** A value that may be null in the source. */
  datatype Option<T> = None | Some(value: T)
}
