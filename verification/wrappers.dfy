/** The optional-value datatype used for "maybe an event" and "maybe a fault". */
module Wrappers {

  datatype Option<+T> = None | Some(value: T)
}
