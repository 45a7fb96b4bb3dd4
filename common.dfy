/** Values shared by the modules of the model. */
module Common {

  /** A nullable reference or an absent value. */
  datatype Option<T> = None | Some(value: T)
}
