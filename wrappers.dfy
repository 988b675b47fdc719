/** Optional values, standing in for `std::optional` and for the
    "nothing was produced" outcome of a failed parse or read. */
module Wrappers {

  datatype Option<+T> = None | Some(value: T)
}
