/** The optional value that stands for JavaScript's `null` result. */
module Options {
  datatype Option<T> = None | Some(value: T)
}
