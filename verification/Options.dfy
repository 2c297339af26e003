/** Python's `None`-or-value results and SQL's nullable columns. */
module Options {
  datatype Option<+T> = None | Some(value: T)
}
