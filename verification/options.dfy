/** The optional value used wherever a read or a write can fail. */
module Options {

  datatype Option<+T> = None | Some(value: T)
}
