/** The optional-value type used where the page may or may not hold something
    (a label element that may be absent, a time string that may not parse). */
module Wrappers {

  datatype Option<+T> = None | Some(value: T)
}
