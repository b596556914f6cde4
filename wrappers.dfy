/** The optional value used wherever the scripts read something that may be
    missing: an attribute, an element, a parse that yields NaN. */
module Wrappers {

  datatype Option<+T> = None | Some(value: T)
}
