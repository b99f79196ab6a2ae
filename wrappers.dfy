/** The conventional optional value, used for lookups that may find nothing
    and for form fields or error messages that may be absent. */
module Wrappers {

  datatype Option<+T> = None | Some(value: T)

}
