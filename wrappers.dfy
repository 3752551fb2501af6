/** An optional value: a missing query parameter, a missing `type_name`, `NaN` from `parseInt`. */
module Wrappers {
  datatype Option<+T> = None | Some(value: T)
}
