/** Python's `None`-or-value, for a head that may be absent and a parse that may fail. */
module Options {

  datatype Option<T> = None | Some(value: T)
}
