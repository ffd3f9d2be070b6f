/** An optional value, used where app.py swallows an exception or
    where a third-party model may be missing. */
module Wrappers {
  datatype Option<+T> = None | Some(value: T)
}
