/** The optional value that stands for Java's `null` results. */
module Wrappers {

  datatype Option<+T> = None | Some(value: T)

}
