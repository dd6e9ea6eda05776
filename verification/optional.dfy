/** A value that may be absent: a NULL reference, a failed step. */
module Optional {
  datatype Option<T> = None | Some(value: T)
}
