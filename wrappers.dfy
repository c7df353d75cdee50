/** The optional value used for JavaScript's `NaN` from `parseInt` and for the
    `null` that `getCidrRange` returns on invalid input. */
module Wrappers {

  datatype Option<+T> = None | Some(value: T)
}
