/** The optional value used for results that a .NET call can fail to produce
    (a rejected pattern, an unknown code page). */
module Wrappers {
  datatype Option<+T> = None | Some(value: T)
}
