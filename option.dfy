/** An optional value: Java's nullable references and failed parses. */
module Options {
  datatype Option<T> = None | Some(value: T)
}
