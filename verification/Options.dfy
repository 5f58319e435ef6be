/** The result of an operation that may have none: the kernel halted, or a table is missing. */
module Options {
  datatype Option<+T> = None | Some(value: T)
}
