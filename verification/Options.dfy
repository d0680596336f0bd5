/** A value that may be missing: a NULL column, a read that finds no row, a
    transaction that rolls back. */
module Options {
  datatype Option<+T> = None | Some(value: T)
}
