/** An optional value, standing for TypeScript's `T | undefined` and for NaN results. */
module Wrappers {

  datatype Option<+T> = None | Some(value: T)
}
