/** The usual present-or-absent value. */
module Options {
  datatype Option<+T> = None | Some(value: T)
}
