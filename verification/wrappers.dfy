/** The optional-value datatype used for a search that may find nothing and
    for an array element that may be absent. */
module Wrappers {

  datatype Option<+T> = None | Some(value: T)

}
