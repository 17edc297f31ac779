/** The optional value used where the page reads an attribute that may be unset. */
module Options {
  datatype Option<T> = None | Some(value: T)
}
