/** Option values: `None` stands for JavaScript's `undefined`, `null` or `NaN`, as each use says. */
module Wrappers {

  datatype Option<+T> = None | Some(value: T)
}
