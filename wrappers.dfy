/** The usual optional value: `None` stands for JavaScript's `NaN`/`undefined`. */
module Wrappers {
  datatype Option<+T> = None | Some(value: T)
}
