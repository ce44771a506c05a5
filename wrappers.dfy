/** An optional value: what the widget reads as `null` (nothing stored, no regex match). */
module Wrappers {

  datatype Option<+T> = None | Some(value: T)
}
