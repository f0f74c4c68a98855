/** Results that may be missing: a null pointer, a failed call, an uninitialised cell. */
module Options {
  datatype Option<+T> = None | Some(value: T)
}
