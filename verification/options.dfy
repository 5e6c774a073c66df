/** The optional value used for the structural-zero matrix and for partial results. */
module Options {

  datatype Option<+T> = None | Some(value: T)
}
