/** An optional value: the non-null or null pointers that C functions return. */
module Options {
  datatype Option<+T> = None | Some(value: T)
}
