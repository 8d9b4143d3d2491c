/** The optional value used for Python's `None`-or-value fields and searches. */
module Optional {

  datatype Option<+T> = None | Some(value: T)
}
