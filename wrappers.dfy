/** The optional value used wherever the game code yields `null`/`undefined`
    (a `find` that matches nothing, a deselected die, a rejected puzzle). */
module Wrappers {

  datatype Option<+T> = None | Some(value: T)

}
