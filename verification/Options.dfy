/** The optional value, used where the source returns a null pointer or throws. */
module Options {
  datatype Option<+T> = None | Some(value: T)
}
