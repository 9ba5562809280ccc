/** The optional value used where the source returns None, NULL or an error code. */
module Options {

  datatype Option<T> = None | Some(value: T)
}
