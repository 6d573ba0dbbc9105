/** A value that may be missing, as a Go nil pointer, a missed map lookup or a false ok says. */
module Options {
  datatype Option<+T> = None | Some(value: T)
}
