/** The optional value used for missing cells (pandas `NaT`/`NaN`) and for "no result". */
module Wrappers {

  datatype Option<+T> = None | Some(value: T)
}
