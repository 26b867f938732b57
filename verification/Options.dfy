/** The optional result shared by all modules: a null pointer, a -1 or a missing file is None. */
module Options {
  datatype Option<+T> = None | Some(value: T)
}
