/** The optional value used for the custom failure message and for the
    compile-time verdict of the macro grammar. */
module Options {

  datatype Option<+T> = None | Some(value: T)
}
