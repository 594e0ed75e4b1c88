/** The optional value used wherever the program returns `None`. */
module Optional {

  datatype Option<+T> = None | Some(value: T)
}
