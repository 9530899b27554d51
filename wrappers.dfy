/** The optional value used wherever the dashboard has "nothing" (a JavaScript null or
    undefined) beside a real value. */
module Wrappers {
  datatype Option<+T> = None | Some(value: T)
}
