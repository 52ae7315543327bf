/** An optional value: `None` stands for Python's "nothing found". */
module Options {
  datatype Option<T> = None | Some(value: T)
}
