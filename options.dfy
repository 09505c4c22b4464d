/** The optional value used for handshake parameters, event fields and lookups. */
module Options {
  datatype Option<+T> = None | Some(value: T)
}
