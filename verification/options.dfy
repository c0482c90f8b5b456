/** The optional value used for JavaScript's `null`/`undefined` and for optional props. */
module Options {
  datatype Option<+T> = None | Some(value: T)
}
