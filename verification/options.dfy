/** The optional value used where the handler returns `null` or may find nothing. */
module Options {

  datatype Option<+T> = None | Some(value: T)
}
