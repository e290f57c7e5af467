/** The optional value used wherever the source passes or receives `null`. */
module Options {
  datatype Option<+T> = None | Some(value: T)
}
