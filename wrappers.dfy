/** The optional value used for "no record" and "no winner" answers. */
module Wrappers {

  datatype Option<+T> = None | Some(value: T)
}
