/** The option type shared by all modules; NULL pointers and absent results become None. */
module Common {
  datatype Option<+T> = None | Some(value: T)
}
