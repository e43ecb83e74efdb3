/** An optional value: Python's None and what stands beside it. */
module Options {
  datatype Option<+T> = None | Some(value: T)
}
