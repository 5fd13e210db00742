/** A value or none, for what the source leaves undefined, aborts on or may be given as null. */
module Options {
  datatype Option<T> = None | Some(value: T)
}
