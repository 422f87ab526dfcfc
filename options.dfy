/** The "maybe a value" type: a slot pointer or NULL, a value pointer or NULL. */
module Options {
  datatype Option<+T> = None | Some(value: T)
}
