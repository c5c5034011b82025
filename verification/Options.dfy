/** The optional value used throughout the model for null pointers and failed lookups. */
module Options {
  datatype Option<+T> = None | Some(value: T)
}
