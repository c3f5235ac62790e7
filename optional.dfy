/** The usual Some/None wrapper, used where the source holds a possibly-null reference. */
module Optional {
  datatype Option<T> = None | Some(value: T)
}
