module Options {

  /** A value or its absence: the source's `undefined` and `null`, or a thrown error. */
  datatype Option<T> = None | Some(value: T)
}
