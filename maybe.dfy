/** The optional value used wherever the source may return `None`. */
module Maybe {
  datatype Option<T> = None | Some(value: T)
}
