/** The Option type used for JavaScript's "absent" values (undefined, null, a failed lookup). */
module Wrappers {
  datatype Option<+T> = None | Some(value: T)
}
