/** The Option type used for values the feed may leave out (a magnitude, the feed itself). */
module Wrappers {

  datatype Option<+T> = None | Some(value: T)
}
