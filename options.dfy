/** The optional value used for JavaScript's `null`/`undefined` fields and for
    operations that may throw. */
module Options {
  datatype Option<+T> = None | Some(value: T)
}
