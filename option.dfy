/** An optional value: JavaScript's `undefined`/`null` or an empty field is `None`. */
module Optional {
  datatype Option<T> = None | Some(value: T)
}
