/** The optional value returned by a query that may match no row, and by the
    JSON decoder of a request body that may be malformed. */
module Options {
  datatype Option<T> = None | Some(value: T)
}
