/** The optional value used for the pages' `number | null` state cells and optional record fields. */
module Wrappers {

  datatype Option<+T> = None | Some(value: T)

}
