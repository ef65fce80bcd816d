/** The optional value used wherever the bot's Python code works with `None`. */
module Wrappers {
  datatype Option<+T> = None | Some(value: T)
}
