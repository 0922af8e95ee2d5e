/** An optional value; `FromMap` answers `None` for a record that is not a counter's rendering. */
module Wrappers {

  datatype Option<+T> = None | Some(value: T)
}
