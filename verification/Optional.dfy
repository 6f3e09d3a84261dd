/** An optional value, for the places where the source uses `null` or
    `undefined` to mean "nothing here". */
module Optional {
  datatype Option<T> = None | Some(value: T)
}
