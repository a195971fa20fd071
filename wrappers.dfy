/** Optional values: `None` stands for a JavaScript argument that is missing
    or falsy (`null`, `undefined`), `Some(v)` for a present one. */
module Wrappers {

  datatype Option<+T> = None | Some(value: T)
}
