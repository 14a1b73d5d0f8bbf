/** The optional value used wherever the source may hold "nothing": a missing
    query parameter, a failed URL parse, an empty storage slot. */
module Wrappers {
  datatype Option<+T> = None | Some(value: T)
}
