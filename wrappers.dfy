/** An optional value, standing in for Java's null and for "no match". */
module Wrappers {
  datatype Option<+T> = None | Some(value: T)
}
