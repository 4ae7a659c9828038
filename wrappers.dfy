/** The conventional optional value, used for Go's pointer-or-nil fields and for
    values that a store may or may not hold. */
module Wrappers {

  datatype Option<+T> = None | Some(value: T)
}
