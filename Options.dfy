/** A value that may be absent: a Python `None`, a missing dictionary key or a failed read. */
module Options {
  datatype Option<+T> = None | Some(value: T)
}
