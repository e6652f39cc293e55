/** The optional value used wherever the source yields `NaN`, `null` or "no match". */
module Wrappers {

  datatype Option<+T> = None | Some(value: T)
}
