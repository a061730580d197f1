/** The optional value used wherever the program has `null`, `undefined` or a failed read. */
module Options {
  datatype Option<+T> = None | Some(value: T)
}
