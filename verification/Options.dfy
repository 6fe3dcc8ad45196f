/** The one result shape shared by the lookups of this project. */
module Options {
  datatype Option<+T> = None | Some(value: T)
}
