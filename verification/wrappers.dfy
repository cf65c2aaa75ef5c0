/** Option, for values that may be absent (an unset form field, a URI that does not parse). */
module Wrappers {

  datatype Option<+T> = None | Some(value: T)

}
