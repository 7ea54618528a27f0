/** Optional values: `None` stands for a JavaScript `null`, `undefined`
    or `NaN` field, `Some(v)` for a present value. */
module Wrappers {

  datatype Option<+T> = None | Some(value: T)
}
