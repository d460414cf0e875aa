module Options {
  /** A result that may be missing: None stands for an exception of the original. */
  datatype Option<T> = None | Some(value: T)
}
