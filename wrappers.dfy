/** The optional value used where the bot keeps "nothing yet". */
module Wrappers {

  datatype Option<+T> = None | Some(value: T)
}
