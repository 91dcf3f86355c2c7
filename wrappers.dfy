/** The optional value shared by the assembler and the pipeline models. */
module Wrappers {

  datatype Option<T> = None | Some(value: T)
}
