/** The conventional optional value, standing for PHP's `false` returned in place of an array. */
module Wrappers {
  datatype Option<+T> = None | Some(value: T)
}
