module Options {
  /** A value that may be absent: null or undefined in the source. */
  datatype Option<+T> = None | Some(value: T)
}
