/** A value that may be missing: a pointer that may be null, or a result that may not exist. */
module Options {
  datatype Option<+T> = None | Some(value: T)
}
