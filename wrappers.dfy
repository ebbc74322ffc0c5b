/** Optional values: a process-table entry and a buffer slot are each either
    present (`Some`) or absent (`None`). */
module Wrappers {

  datatype Option<+T> = None | Some(value: T)
}
