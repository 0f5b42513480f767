/** The optional value returned by cache lookups. */
module Optional {
  datatype Option<T> = None | Some(value: T)
}
