/** The optional value that stands in for PHP's "a value, or false/null". */
module Wrappers {

  datatype Option<+T> = None | Some(value: T)
}
