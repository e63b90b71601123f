/** An optional value, for results the source returns as `Option`. */
module Optional {
  datatype Option<T> = None | Some(value: T)
}
