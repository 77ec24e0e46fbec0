/** The optional value a pipeline stage produces: a chunk pushed downstream, or nothing. */
module Wrappers {

  datatype Option<+T> = None | Some(value: T)
}
