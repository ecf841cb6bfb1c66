/** An optional value: the model's stand-in for an argument the caller may leave undefined. */
module Options {
  datatype Option<T> = None | Some(value: T)
}
