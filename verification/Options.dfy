/** A value that may be absent, for Python's `None` and for the exceptions that take its place. */
module Options {

  datatype Option<+T> = None | Some(value: T)
}
