/** An optional value: the `None` of a query that finds nothing or of an
    index not built yet. */
module Optional {
  datatype Option<T> = None | Some(value: T)
}
