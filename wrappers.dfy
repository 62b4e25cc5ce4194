/** The optional value used where the source starts a running minimum or
    maximum at None, and where a lookup may find nothing. */
module Wrappers {

  datatype Option<+T> = None | Some(value: T)

}
