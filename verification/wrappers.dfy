/** The optional value the extraction code expresses with `null`. */
module Wrappers {

  datatype Option<+T> = None | Some(value: T)
}
