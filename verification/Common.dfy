/** The optional value used throughout the project. */
module Common {
  datatype Option<+T> = None | Some(value: T)
}
