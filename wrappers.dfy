/** Option and the three ways a Swift call can end. */
module Wrappers {

  datatype Option<+T> = None | Some(value: T)

  /** How a Swift call ends: it returns a value, it throws an error that a
      caller may catch (`try?`), or it traps (a failed `assert`, a forced
      unwrap of nil, `fatalError`), which no caller can catch. */
  datatype Outcome<+T> = Returned(value: T) | Threw | Trapped
}
