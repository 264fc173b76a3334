/** A value that may be missing: a NULL pointer, an absent file, a failed call. */
module Options {
  datatype Option<+T> = None | Some(value: T)
}
