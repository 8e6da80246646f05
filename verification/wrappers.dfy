/** The absent-or-present value used where the game code uses `null`. */
module Wrappers {

  datatype Option<+T> = None | Some(value: T)

}
