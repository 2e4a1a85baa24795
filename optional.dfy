/** The optional value used by both the server model and the client model. */
module Optional {

  datatype Option<+T> = None | Some(value: T)
}
