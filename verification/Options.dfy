/** A value that may be missing, shared by all modules. */
module Options {
  datatype Option<T> = None | Some(value: T)
}
