/** An optional value, for JavaScript's `null` and for values that may be
    absent from the browser's storage. */
module Options {
  datatype Option<T> = None | Some(value: T)
}
