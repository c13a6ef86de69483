/** An optional value: JavaScript's `undefined` next to a present value. */
module Optional {
  datatype Option<+T> = None | Some(value: T)
}
