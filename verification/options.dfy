/** A value that may be missing: a JavaScript `undefined` or a field left at its default. */
module Options {
  datatype Option<+T> = None | Some(value: T)
}
