/** The optional value the game logic uses where the game's script reads `undefined`. */
module Wrappers {

  datatype Option<+T> = None | Some(value: T)
}
