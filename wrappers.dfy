/** Optional values: `None` stands for the `null` that the search returns or finds. */
module Wrappers {

  datatype Option<+T> = None | Some(value: T)
}
