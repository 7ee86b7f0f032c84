/** Python's `None`-or-value, as a datatype. */
module Optional {
  datatype Option<T> = None | Some(value: T)
}
