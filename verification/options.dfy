/** A value or the C null signal. */
module Options {

  datatype Option<+T> = None | Some(value: T)
}
