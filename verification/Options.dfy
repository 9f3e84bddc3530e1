/** An optional value, where the source returns a value and a flag, or an mo.Option. */
module Options {
  datatype Option<+T> = None | Some(value: T)
}
