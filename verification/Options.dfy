/** A value that may be missing: a NULL pointer, a lookup that fails, a loop that gives up. */
module Options {
  datatype Option<+T> = None | Some(value: T)
}
