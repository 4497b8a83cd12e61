/** The optional value used for missing cells, failed sources and a run that produced no table. */
module Wrappers {
  datatype Option<+T> = None | Some(value: T)
}
