/** The outcome of trying a pattern at one position. */
module Options {
  datatype Option<T> = None | Some(value: T)
}
