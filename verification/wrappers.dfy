/** Option type shared by both engines: `None` stands for "the supplied
    randomness ran out before the program's loop would have stopped". */
module Wrappers {

  datatype Option<+T> = None | Some(value: T)

}
