/** The optional value: a NULL pointer or a missing map entry is `None`. */
module Options {
  datatype Option<+T> = None | Some(value: T)
}
