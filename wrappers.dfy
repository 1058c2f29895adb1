/** The optional value: here the game's maze, which is absent until the first one is built. */
module Wrappers {

  datatype Option<+T> = None | Some(value: T)
}
