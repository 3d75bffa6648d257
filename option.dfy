/** The `None`-or-value results of the tabs (a Python value that may be `None`). */
module Optional {
  datatype Option<+T> = None | Some(value: T)
}
