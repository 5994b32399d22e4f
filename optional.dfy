/** The absent-or-present value the installer's helpers return (Python's `None`). */
module Optional {
  datatype Option<+T> = None | Some(value: T)
}
