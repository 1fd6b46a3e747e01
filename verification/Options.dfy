/** An optional value: the source's NULL results and error returns. */
module Options {
  datatype Option<T> = None | Some(value: T)
}
