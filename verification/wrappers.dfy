/** Option, standing in for PHP's nullable values (`?int`, `?string`). */
module Wrappers {
  datatype Option<+T> = None | Some(value: T)
}
