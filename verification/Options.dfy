/** An optional value, for the errors and missing entries that carry nothing else. */
module Options {
  datatype Option<+T> = None | Some(value: T)
}
