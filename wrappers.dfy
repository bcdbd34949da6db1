/** The optional values of the page: a chosen photo file, a preview, a photo URL. */
module Wrappers {
  datatype Option<+T> = None | Some(value: T)
}
