/** Option and Result, used for the absent fields of a reply and for the
    error paths of the translator and the phrase store. */
module Wrappers {

  datatype Option<+T> = None | Some(value: T)

  datatype Result<+R, +E> = Ok(value: R) | Err(error: E)
}
