/** The optional value used for the snake's current and pending direction. */
module Wrappers {

  datatype Option<+T> = None | Some(value: T)
}
