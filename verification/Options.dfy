/** What C expresses by a null pointer or an error value. */
module Options {
  datatype Option<+T> = None | Some(value: T)
}
