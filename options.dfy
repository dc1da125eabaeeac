/** The optional value used wherever the source has `null` or "not found". */
module Options {
  datatype Option<+T> = None | Some(value: T)
}
