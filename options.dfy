/** The optional value that chrono's partial date operations return. */
module Options {
  datatype Option<+T> = None | Some(value: T)
}
