/** The usual optional value, for parsers that may fail. */
module Options {

  datatype Option<T> = None | Some(value: T)
}
