/** An optional value: a nullable pointer or a result that may be absent. */
module Options {
  datatype Option<+T> = None | Some(value: T)
}
