/** The Some/None datatype used for the partial operations of the model
    (a JSON text that does not parse, an index that is not found). */
module Wrappers {

  datatype Option<+T> = None | Some(value: T)
}
