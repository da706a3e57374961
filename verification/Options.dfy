/** An optional value: a pointer that may be NULL, or the outcome of a function that may fail. */
module Options {
  datatype Option<+T> = None | Some(value: T)
}
