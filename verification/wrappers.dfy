/** The optional value used for "this sprite is still alive" and "a sprite was spawned". */
module Wrappers {

  datatype Option<+T> = None | Some(value: T)

}
