/** The optional value used where the script reads a property that may be absent
    (a node's category) or computes a coordinate that may be NaN or Infinity (a legend item
    when no item fits on a row). */
module Wrappers {

  datatype Option<+T> = None | Some(value: T)
}
