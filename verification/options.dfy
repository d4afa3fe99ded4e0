/** The optional value used for the source's "raises or returns nothing" outcomes. */
module Options {

  datatype Option<+T> = None | Some(value: T)
}
