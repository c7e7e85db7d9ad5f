/** A value that may be missing: an exception raised, a key not found, nothing to say. */
module Options {
  datatype Option<+T> = None | Some(value: T)
}
