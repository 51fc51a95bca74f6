/** A value that may be missing, where the C code uses a null pointer or leaves a variable unset. */
module Options {
  datatype Option<+T> = None | Some(value: T)
}
