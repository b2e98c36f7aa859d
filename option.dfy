/** An optional value: JavaScript's `undefined` or a missing entry. */
module Maybe {
  datatype Option<+T> = None | Some(value: T)
}
