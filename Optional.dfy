/** A value that may be absent, as JavaScript's null or a search that finds nothing. */
module Optional {
  datatype Option<T> = None | Some(value: T)
}
