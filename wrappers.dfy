/** The optional value used wherever the client's code yields "nothing" (a failed match, no query). */
module Wrappers {
  datatype Option<+T> = None | Some(value: T)
}
