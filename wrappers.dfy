/** The optional value returned by the per-line rule of the `.env` parser. */
module Wrappers {

  datatype Option<+T> = None | Some(value: T)

}
