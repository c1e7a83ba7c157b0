/** The pointer-or-NULL type used throughout the model. */
module Options {
  datatype Option<+T> = None | Some(value: T)
}
