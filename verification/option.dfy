/** The optional value used for board cells and for searches that may find nothing. */
module Optional {

  datatype Option<+T> = None | Some(value: T)
}
