/** The absent-or-present value used wherever the TypeScript code returns
    `null` or `undefined` in place of a value. */
module Wrappers {

  datatype Option<+T> = None | Some(value: T)
}
