/** Python's `None`-or-value, used for the extraction method tag of a check. */
module Wrappers {

  datatype Option<+T> = None | Some(value: T)
}
