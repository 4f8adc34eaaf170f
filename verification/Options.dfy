// The optional value used throughout: a C pointer that may be NULL, a look-up that may miss.
module Options {

  datatype Option<+T> = None | Some(value: T)
}
