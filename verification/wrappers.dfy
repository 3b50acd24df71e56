/** Optional values, used wherever the program can produce "nothing": a NaN
    marker position, an unparseable number, a field that does not read back,
    an export of an empty history. */
module Wrappers {

  datatype Option<+T> = None | Some(value: T)
}
