/** JavaScript's `null` beside a value: the result type of every query that can come back empty. */
module Wrappers {

  datatype Option<+T> = None | Some(value: T)
}
