/** The result of a lookup that may find nothing (a LINQ FirstOrDefault or FindAsync that yields null). */
module Wrappers {

  datatype Option<+T> = None | Some(value: T)
}
