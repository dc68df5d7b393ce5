/** The optional value used where the C++ code returns an iterator that may be the end, or a null pointer. */
module Options {
  datatype Option<+T> = None | Some(value: T)
}
