/** A query parameter that may be absent from the request's URL. */
module Wrappers {

  datatype Option<+T> = None | Some(value: T)

}
