/** The usual optional value, used where the Go code returns a value and an error. */
module Options {
  datatype Option<+T> = None | Some(value: T)
}
